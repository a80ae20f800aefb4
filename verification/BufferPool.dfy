/** The packet buffer pool: reference-counted slabs on a lock-free free stack, stepped one
    atomic access at a time by any number of threads. */
module BufferPool {
  import opened Queues

  const MAX_REFS := 255

  /** Where a thread stands inside acquire() or release(). */
  datatype Thread =
    | Idle
    | Loaded(t: int)                     // acquire: read the head
    | Linked(t: int, next: int)          // acquire: read the head's successor
    | Taken(s: nat)                      // acquire: won the exchange
    | Counted(s: nat)                    // acquire: lowered the free count
    | Releasing(s: nat, cur: nat)        // release: read the reference count
    | Dropped(s: nat)                    // release: removed the last reference
    | Pushing(s: nat, head: int)         // release: read the head
    | Chained(s: nat, head: int)         // release: wrote the successor
    | Pushed                             // release: won the exchange

  datatype Op = Acquire | Release(s: nat) | AddRef(s: nat)

  datatype Pool = Pool(top: int, next: seq<int>, refs: seq<nat>, free: int, overflows: nat, exhausted: nat, threads: seq<Thread>)

  /** The slab a thread has to itself while it moves between the stack and its holders. */
  function Carried(t: Thread): int {
    match t
    case Taken(s) => s
    case Counted(s) => s
    case Dropped(s) => s
    case Pushing(s, _) => s
    case Chained(s, _) => s
    case _ => -1
  }

  predicate Acquiring(t: Thread) {
    t.Loaded? || t.Linked?
  }

  /** What a thread remembers points into a pool of n slabs, or is the end of the stack. */
  predicate InPool(t: Thread, n: nat) {
    match t
    case Idle => true
    case Loaded(t) => 0 <= t < n
    case Linked(t, next) => 0 <= t < n && -1 <= next < n
    case Taken(s) => s < n
    case Counted(s) => s < n
    case Releasing(s, _) => s < n
    case Dropped(s) => s < n
    case Pushing(s, head) => s < n && -1 <= head < n
    case Chained(s, head) => s < n && -1 <= head < n
    case Pushed => true
  }

  /** All indices are in bounds. */
  ghost predicate Shape(p: Pool) {
    && |p.next| == |p.refs| && -1 <= p.top < |p.next|
    && (forall s :: 0 <= s < |p.next| ==> -1 <= p.next[s] < |p.next|)
    && (forall i :: 0 <= i < |p.threads| ==> InPool(p.threads[i], |p.next|))
  }

  /** Thread i may start op: it is handed slabs of the pool, and whoever adds a reference holds one. */
  predicate MayStart(p: Pool, i: nat, op: Op) {
    i < |p.threads| &&
    (p.threads[i].Idle? ==>
      match op
      case Acquire => true
      case Release(s) => s < |p.refs|
      case AddRef(s) => s < |p.refs| && 0 < p.refs[s] < MAX_REFS)
  }

  /** One atomic access by thread i. A weak compare-exchange may also fail spuriously. */
  function Act(p: Pool, i: nat, op: Op, spurious: bool): Pool
    requires Shape(p) && MayStart(p, i, op)
  {
    match p.threads[i]
    case Idle => (
      match op
      case Acquire => if p.top < 0 then p.(exhausted := p.exhausted + 1) else At(p, i, Loaded(p.top))
      case Release(s) =>
        if p.refs[s] == 0 then p.(overflows := p.overflows + 1) else At(p, i, Releasing(s, p.refs[s]))
      case AddRef(s) => p.(refs := p.refs[s := p.refs[s] + 1]))
    case Loaded(t) => At(p, i, Linked(t, p.next[t]))
    case Linked(t, next) =>
      if p.top == t && !spurious then At(p, i, Taken(t)).(top := next)
      else if p.top < 0 then At(p, i, Idle).(exhausted := p.exhausted + 1)
      else At(p, i, Loaded(p.top))
    case Taken(s) => At(p, i, Counted(s)).(free := p.free - 1)
    case Counted(s) => At(p, i, Idle).(refs := p.refs[s := 1])
    case Releasing(s, cur) =>
      if p.refs[s] == cur && cur > 0 && !spurious then
        At(p, i, if cur == 1 then Dropped(s) else Idle).(refs := p.refs[s := cur - 1])
      else if p.refs[s] == 0 then At(p, i, Idle).(overflows := p.overflows + 1)
      else At(p, i, Releasing(s, p.refs[s]))
    case Dropped(s) => At(p, i, Pushing(s, p.top))
    case Pushing(s, head) => At(p, i, Chained(s, head)).(next := p.next[s := head])
    case Chained(s, head) =>
      if p.top == head && !spurious then At(p, i, Pushed).(top := s) else At(p, i, Pushing(s, p.top))
    case Pushed => At(p, i, Idle).(free := p.free + 1)
  }

  function At(p: Pool, i: nat, t: Thread): Pool
    requires i < |p.threads|
  {
    p.(threads := p.threads[i := t])
  }

  /** No access ever leaves the pool, whatever the interleaving. */
  lemma ActInBounds(p: Pool, i: nat, op: Op, spurious: bool)
    requires Shape(p) && MayStart(p, i, op)
    ensures Shape(Act(p, i, op, spurious)) && |Act(p, i, op, spurious).threads| == |p.threads|
  {
    assert InPool(p.threads[i], |p.next|);
  }

  // ---- The invariant ----

  /** Entry k of the stack, -1 past its end. */
  function Entry(c: seq<nat>, k: nat): int {
    if k < |c| then c[k] else -1
  }

  /** c is the free stack: it starts at top, follows next and ends. */
  ghost predicate IsChain(top: int, next: seq<int>, c: seq<nat>) {
    && NoDup(c)
    && (forall k :: 0 <= k < |c| ==> c[k] < |next|)
    && top == Entry(c, 0)
    && forall k :: 0 <= k < |c| ==> next[c[k]] == Entry(c, k + 1)
  }

  /** Why a state is good: the free stack, and the thread that carries each slab (or -1). */
  datatype Witness = Witness(chain: seq<nat>, carrier: seq<int>)

  /** Slab s is in exactly one place: on the stack, with holders, or carried by a thread. */
  ghost predicate SlabOk(refs: seq<nat>, threads: seq<Thread>, w: Witness, s: nat)
    requires s < |refs| == |w.carrier|
  {
    && (s in w.chain ==> refs[s] == 0 && w.carrier[s] == -1)
    && (w.carrier[s] != -1 ==> refs[s] == 0 && 0 <= w.carrier[s] < |threads| && Carried(threads[w.carrier[s]]) == s)
    && (refs[s] == 0 && w.carrier[s] == -1 ==> s in w.chain)
  }

  /** What thread i carries is its own, and a successor it wrote is still there. What it read of
      the stack may be out of date. */
  ghost predicate ThreadOk(next: seq<int>, w: Witness, i: nat, t: Thread)
    requires |next| == |w.carrier|
  {
    && (Carried(t) >= 0 ==> Carried(t) < |next| && w.carrier[Carried(t)] == i)
    && (t.Chained? ==> t.s < |next| && next[t.s] == t.head)
  }

  /** How far the free count is ahead of the stack because of this thread. */
  function Lag(t: Thread): int {
    if t.Taken? then 1 else if t.Pushed? then -1 else 0
  }

  function TotalLag(threads: seq<Thread>): int {
    if threads == [] then 0 else Lag(threads[0]) + TotalLag(threads[1..])
  }

  ghost predicate Good(p: Pool, w: Witness) {
    && |p.next| == |p.refs| == |w.carrier|
    && IsChain(p.top, p.next, w.chain)
    && (forall s: nat :: s < |p.refs| ==> SlabOk(p.refs, p.threads, w, s))
    && (forall i :: 0 <= i < |p.threads| ==> ThreadOk(p.next, w, i, p.threads[i]))
    && p.free == |w.chain| + TotalLag(p.threads)
  }

  /** Every slab is in exactly one place. */
  ghost predicate InOrder(p: Pool) {
    exists w :: Good(p, w)
  }

  lemma {:induction false} LagAfter(threads: seq<Thread>, i: nat, t: Thread)
    requires i < |threads|
    ensures TotalLag(threads[i := t]) == TotalLag(threads) - Lag(threads[i]) + Lag(t)
  {
    if i == 0 {
      assert threads[0 := t][1..] == threads[1..];
    } else {
      assert threads[i := t][1..] == threads[1..][i - 1 := t];
      LagAfter(threads[1..], i - 1, t);
    }
  }

  /** Thread i moves on while the stack, the counts and what it carries stay. */
  lemma QuietMove(p: Pool, w: Witness, i: nat, t: Thread)
    requires Good(p, w) && i < |p.threads|
    requires Carried(p.threads[i]) == Carried(t) && Lag(p.threads[i]) == Lag(t)
    requires ThreadOk(p.next, w, i, t)
    ensures Good(At(p, i, t), w)
  {
    var p' := At(p, i, t);
    LagAfter(p.threads, i, t);
    forall s: nat | s < |p'.refs|
      ensures SlabOk(p'.refs, p'.threads, w, s)
    {
      assert SlabOk(p.refs, p.threads, w, s);
    }
  }

  lemma HeadAndRest(c: seq<nat>)
    requires NoDup(c) && c != []
    ensures c[0] !in c[1..] && NoDup(c[1..]) && forall x :: x in c <==> x == c[0] || x in c[1..]
  {
    assert c == [c[0]] + c[1..];
  }

  lemma ChainPops(top: int, next: seq<int>, c: seq<nat>)
    requires IsChain(top, next, c) && top >= 0
    ensures c != [] && c[0] == top && top < |next| && top !in c[1..] && IsChain(next[top], next, c[1..])
    ensures forall x :: x in c <==> x == top || x in c[1..]
  {
    HeadAndRest(c);
    hide NoDup;
    var rest := c[1..];
    forall k | 0 <= k < |rest|
      ensures rest[k] < |next| && next[rest[k]] == Entry(rest, k + 1)
    {
      assert rest[k] == c[k + 1] && Entry(rest, k + 1) == Entry(c, k + 2);
    }
  }

  lemma ChainPushes(top: int, next: seq<int>, c: seq<nat>, s: nat)
    requires IsChain(top, next, c) && s < |next| && next[s] == top && s !in c
    ensures IsChain(s, next, [s] + c)
  {
    NoDupAppend([s], c);
  }

  lemma ChainElsewhere(top: int, next: seq<int>, c: seq<nat>, s: nat, v: int)
    requires IsChain(top, next, c) && s < |next| && s !in c
    ensures IsChain(top, next[s := v], c)
  {
    assert forall k :: 0 <= k < |c| ==> c[k] in c;
  }

  /** Winning the exchange with a successor that is still current takes the head off the stack. */
  lemma Pop(p: Pool, w: Witness, i: nat) returns (w': Witness)
    requires Good(p, w) && i < |p.threads| && p.threads[i].Linked? && p.top == p.threads[i].t
    requires 0 <= p.top < |p.next| && p.threads[i].next == p.next[p.top]
    ensures Good(At(p, i, Taken(p.threads[i].t)).(top := p.threads[i].next), w')
    ensures p.refs[p.top] == 0 && w.chain != [] && w.chain[0] == p.top && w.carrier[p.top] == -1
    ensures w'.chain == w.chain[1..]
  {
    var t := p.threads[i];
    assert ThreadOk(p.next, w, i, t);
    ChainPops(p.top, p.next, w.chain);
    hide IsChain;
    var rest := w.chain[1..];
    w' := w.(chain := rest, carrier := w.carrier[t.t := i]);
    var p' := At(p, i, Taken(t.t)).(top := t.next);
    LagAfter(p.threads, i, Taken(t.t));
    assert SlabOk(p.refs, p.threads, w, t.t);
    forall s: nat | s < |p.refs|
      ensures SlabOk(p'.refs, p'.threads, w', s)
    {
      assert SlabOk(p.refs, p.threads, w, s);
    }
    forall j | 0 <= j < |p.threads|
      ensures ThreadOk(p'.next, w', j, p'.threads[j])
    {
      assert ThreadOk(p.next, w, j, p.threads[j]);
    }
  }

  /** The reference count of slab s changes between positive values. */
  lemma Counting(p: Pool, w: Witness, i: nat, s: nat, n: nat)
    requires Good(p, w) && i < |p.threads| && s < |p.refs| && p.refs[s] > 0 && n > 0
    requires Carried(p.threads[i]) == -1 && Lag(p.threads[i]) == 0
    ensures Good(At(p, i, Idle).(refs := p.refs[s := n]), w)
  {
    QuietMove(p, w, i, Idle);
    var q, refs' := At(p, i, Idle), p.refs[s := n];
    forall x: nat | x < |q.refs|
      ensures SlabOk(refs', q.threads, w, x)
    {
      assert SlabOk(q.refs, q.threads, w, x);
    }
  }

  /** The last reference goes: thread i now carries the slab. */
  lemma Drop(p: Pool, w: Witness, i: nat, s: nat) returns (w': Witness)
    requires Good(p, w) && i < |p.threads| && s < |p.refs| && p.refs[s] > 0
    requires Carried(p.threads[i]) == -1 && Lag(p.threads[i]) == 0
    ensures Good(At(p, i, Dropped(s)).(refs := p.refs[s := 0]), w') && w'.chain == w.chain
  {
    w' := w.(carrier := w.carrier[s := i]);
    var p' := At(p, i, Dropped(s)).(refs := p.refs[s := 0]);
    LagAfter(p.threads, i, Dropped(s));
    assert SlabOk(p.refs, p.threads, w, s);
    forall x: nat | x < |p.refs|
      ensures SlabOk(p'.refs, p'.threads, w', x)
    {
      assert SlabOk(p.refs, p.threads, w, x);
    }
    forall j | 0 <= j < |p.threads|
      ensures ThreadOk(p'.next, w', j, p'.threads[j])
    {
      assert ThreadOk(p.next, w, j, p.threads[j]);
    }
  }

  /** The carried slab gets its first holder. */
  lemma HandOut(p: Pool, w: Witness, i: nat) returns (w': Witness)
    requires Good(p, w) && i < |p.threads| && p.threads[i].Counted?
    ensures p.threads[i].s < |p.refs|
    ensures Good(At(p, i, Idle).(refs := p.refs[p.threads[i].s := 1]), w') && w'.chain == w.chain
  {
    var s := p.threads[i].s;
    assert ThreadOk(p.next, w, i, p.threads[i]);
    w' := w.(carrier := w.carrier[s := -1]);
    var p' := At(p, i, Idle).(refs := p.refs[s := 1]);
    LagAfter(p.threads, i, Idle);
    assert SlabOk(p.refs, p.threads, w, s);
    forall x: nat | x < |p.refs|
      ensures SlabOk(p'.refs, p'.threads, w', x)
    {
      assert SlabOk(p.refs, p.threads, w, x);
    }
    forall j | 0 <= j < |p.threads|
      ensures ThreadOk(p'.next, w', j, p'.threads[j])
    {
      assert ThreadOk(p.next, w, j, p.threads[j]);
    }
  }

  /** Writing the successor of a carried slab touches no chain and no other thread. */
  lemma Chain(p: Pool, w: Witness, i: nat)
    requires Good(p, w) && i < |p.threads| && p.threads[i].Pushing?
    ensures p.threads[i].s < |p.next| && p.threads[i].s !in w.chain
    ensures Good(At(p, i, Chained(p.threads[i].s, p.threads[i].head)).(next := p.next[p.threads[i].s := p.threads[i].head]), w)
  {
    hide IsChain;
    var s, head := p.threads[i].s, p.threads[i].head;
    assert ThreadOk(p.next, w, i, p.threads[i]);
    var p' := At(p, i, Chained(s, head)).(next := p.next[s := head]);
    LagAfter(p.threads, i, Chained(s, head));
    assert SlabOk(p.refs, p.threads, w, s);
    forall x: nat | x < |p.refs|
      ensures SlabOk(p'.refs, p'.threads, w, x)
    {
      assert SlabOk(p.refs, p.threads, w, x);
    }
    forall j | 0 <= j < |p.threads|
      ensures ThreadOk(p'.next, w, j, p'.threads[j])
    {
      assert ThreadOk(p.next, w, j, p.threads[j]);
    }
    ChainElsewhere(p.top, p.next, w.chain, s, head);
  }

  /** Winning the exchange puts the carried slab on top. */
  lemma Push(p: Pool, w: Witness, i: nat) returns (w': Witness)
    requires Good(p, w) && i < |p.threads| && p.threads[i].Chained? && p.top == p.threads[i].head
    ensures Good(At(p, i, Pushed).(top := p.threads[i].s), w') && w'.chain == [p.threads[i].s] + w.chain
  {
    var s := p.threads[i].s;
    assert ThreadOk(p.next, w, i, p.threads[i]);
    w' := w.(chain := [s] + w.chain, carrier := w.carrier[s := -1]);
    var p' := At(p, i, Pushed).(top := s);
    LagAfter(p.threads, i, Pushed);
    assert SlabOk(p.refs, p.threads, w, s);
    ChainPushes(p.top, p.next, w.chain, s);
    hide IsChain;
    forall x: nat | x < |p.refs|
      ensures SlabOk(p'.refs, p'.threads, w', x)
    {
      assert SlabOk(p.refs, p.threads, w, x);
    }
    forall j | 0 <= j < |p.threads|
      ensures ThreadOk(p'.next, w', j, p'.threads[j])
    {
      assert ThreadOk(p.next, w, j, p.threads[j]);
    }
  }

  /** A count catches up with the stack. */
  lemma Catch(p: Pool, w: Witness, i: nat, t: Thread)
    requires Good(p, w) && i < |p.threads| && Carried(p.threads[i]) == Carried(t) && ThreadOk(p.next, w, i, t)
    ensures Good(At(p, i, t).(free := p.free + Lag(t) - Lag(p.threads[i])), w)
  {
    var p' := At(p, i, t);
    LagAfter(p.threads, i, t);
    forall s: nat | s < |p'.refs|
      ensures SlabOk(p'.refs, p'.threads, w, s)
    {
      assert SlabOk(p.refs, p.threads, w, s);
    }
  }

  /** Thread i wins acquire's exchange although the successor it read is out of date. */
  predicate StaleWin(p: Pool, i: nat, spurious: bool) {
    && i < |p.threads| && p.threads[i].Linked? && p.top == p.threads[i].t && !spurious
    && 0 <= p.top < |p.next| && p.threads[i].next != p.next[p.top]
  }

  /** Whatever was on the stack still is, with the same successor. */
  ghost predicate StackStays(p: Pool, w: Witness, p': Pool, w': Witness) {
    |p'.next| == |p.next| && forall s :: s in w.chain && s < |p.next| ==> s in w'.chain && p'.next[s] == p.next[s]
  }

  /** Starting an operation. */
  lemma StartKeeps(p: Pool, w: Witness, i: nat, op: Op, spurious: bool) returns (w': Witness)
    requires Good(p, w) && Shape(p) && MayStart(p, i, op) && !StaleWin(p, i, spurious)
    requires p.threads[i].Idle?
    ensures Good(Act(p, i, op, spurious), w')
    ensures !Act(p, i, op, spurious).threads[i].Taken? ==> StackStays(p, w, Act(p, i, op, spurious), w')
  {
    hide Good, IsChain, SlabOk;
    w' := w;
    assert InPool(p.threads[i], |p.next|);
    Remembered(p, w, i);
    match op {
      case Acquire =>
        if p.top >= 0 {
          QuietMove(p, w, i, Loaded(p.top));
        } else {
          Tallies(p, w);
        }
      case Release(s) =>
        if p.refs[s] != 0 {
          QuietMove(p, w, i, Releasing(s, p.refs[s]));
        } else {
          Tallies(p, w);
        }
      case AddRef(s) =>
        Counting(p, w, i, s, p.refs[s] + 1);
        assert At(p, i, Idle) == p;
    }
  }

  /** Inside acquire. */
  lemma AcquireKeeps(p: Pool, w: Witness, i: nat, op: Op, spurious: bool) returns (w': Witness)
    requires Good(p, w) && Shape(p) && MayStart(p, i, op) && !StaleWin(p, i, spurious)
    requires Acquiring(p.threads[i]) || p.threads[i].Taken? || p.threads[i].Counted?
    ensures Good(Act(p, i, op, spurious), w')
    ensures !Act(p, i, op, spurious).threads[i].Taken? ==> StackStays(p, w, Act(p, i, op, spurious), w')
  {
    hide Good, IsChain, SlabOk;
    w' := w;
    assert InPool(p.threads[i], |p.next|);
    Remembered(p, w, i);
    match p.threads[i] {
      case Loaded(head) =>
        QuietMove(p, w, i, Linked(head, p.next[head]));
      case Linked(head, next) =>
        if p.top == head && !spurious {
          w' := Pop(p, w, i);
        } else if p.top < 0 {
          QuietMove(p, w, i, Idle);
          Tallies(At(p, i, Idle), w);
        } else {
          QuietMove(p, w, i, Loaded(p.top));
        }
      case Taken(s) =>
        Catch(p, w, i, Counted(s));
      case Counted(s) =>
        w' := HandOut(p, w, i);
    }
  }

  /** Inside release, while the references are being counted down. */
  lemma CountDownKeeps(p: Pool, w: Witness, i: nat, op: Op, spurious: bool) returns (w': Witness)
    requires Good(p, w) && Shape(p) && MayStart(p, i, op) && !StaleWin(p, i, spurious)
    requires p.threads[i].Releasing?
    ensures Good(Act(p, i, op, spurious), w')
    ensures !Act(p, i, op, spurious).threads[i].Taken? ==> StackStays(p, w, Act(p, i, op, spurious), w')
  {
    hide Good, IsChain, SlabOk;
    w' := w;
    assert InPool(p.threads[i], |p.next|);
    Remembered(p, w, i);
    var s, cur := p.threads[i].s, p.threads[i].cur;
    if p.refs[s] == cur && cur > 0 && !spurious {
      if cur == 1 {
        w' := Drop(p, w, i, s);
      } else {
        Counting(p, w, i, s, cur - 1);
      }
    } else if p.refs[s] == 0 {
      QuietMove(p, w, i, Idle);
      Tallies(At(p, i, Idle), w);
    } else {
      QuietMove(p, w, i, Releasing(s, p.refs[s]));
    }
  }

  /** Inside release, while the slab goes back on the stack. */
  lemma PushKeeps(p: Pool, w: Witness, i: nat, op: Op, spurious: bool) returns (w': Witness)
    requires Good(p, w) && Shape(p) && MayStart(p, i, op) && !StaleWin(p, i, spurious)
    requires p.threads[i].Dropped? || p.threads[i].Pushing? || p.threads[i].Chained? || p.threads[i].Pushed?
    ensures Good(Act(p, i, op, spurious), w')
    ensures !Act(p, i, op, spurious).threads[i].Taken? ==> StackStays(p, w, Act(p, i, op, spurious), w')
  {
    hide Good, IsChain, SlabOk;
    w' := w;
    assert InPool(p.threads[i], |p.next|);
    Remembered(p, w, i);
    match p.threads[i] {
      case Dropped(s) =>
        QuietMove(p, w, i, Pushing(s, p.top));
      case Pushing(s, head) =>
        Chain(p, w, i);
      case Chained(s, head) =>
        if p.top == head && !spurious {
          w' := Push(p, w, i);
        } else {
          QuietMove(p, w, i, Pushing(s, p.top));
        }
      case Pushed =>
        Catch(p, w, i, Idle);
    }
  }

  /** Every access but a stale exchange keeps the pool in order, and takes nothing off the stack
      unless it wins acquire's exchange. */
  lemma ActKeeps(p: Pool, w: Witness, i: nat, op: Op, spurious: bool) returns (w': Witness)
    requires Good(p, w) && Shape(p) && MayStart(p, i, op) && !StaleWin(p, i, spurious)
    ensures Good(Act(p, i, op, spurious), w')
    ensures !Act(p, i, op, spurious).threads[i].Taken? ==> StackStays(p, w, Act(p, i, op, spurious), w')
  {
    hide Good, Act, StackStays, Shape, StaleWin;
    match p.threads[i] {
      case Idle => w' := StartKeeps(p, w, i, op, spurious);
      case Releasing(_, _) => w' := CountDownKeeps(p, w, i, op, spurious);
      case Dropped(_) => w' := PushKeeps(p, w, i, op, spurious);
      case Pushing(_, _) => w' := PushKeeps(p, w, i, op, spurious);
      case Chained(_, _) => w' := PushKeeps(p, w, i, op, spurious);
      case Pushed => w' := PushKeeps(p, w, i, op, spurious);
      case _ => w' := AcquireKeeps(p, w, i, op, spurious);
    }
  }

  // ---- What a stale exchange does ----

  lemma NextInChain(next: seq<int>, top: int, c: seq<nat>, k: nat)
    requires IsChain(top, next, c) && k < |c|
    ensures c[k] < |next| && next[c[k]] == Entry(c, k + 1)
  {
  }

  /** A chain that starts inside another one follows it to its end. */
  lemma {:induction false} ChainFollows(next: seq<int>, top: int, a: seq<nat>, k: nat, b: seq<nat>, j: nat)
    requires IsChain(top, next, a) && k < |a| && IsChain(a[k], next, b) && j < |b|
    ensures k + j < |a| && b[j] == a[k + j]
  {
    if j == 0 {
    } else {
      hide IsChain;
      ChainFollows(next, top, a, k, b, j - 1);
      NextInChain(next, a[k], b, j - 1);
      NextInChain(next, top, a, k + j - 1);
    }
  }

  /** Two chains over the same slabs have the same head. */
  lemma SameSlabsSameHead(next: seq<int>, top: int, a: seq<nat>, top': int, b: seq<nat>)
    requires IsChain(top, next, a) && IsChain(top', next, b)
    requires forall s :: s in a <==> s in b
    ensures top == top'
  {
    assert (a != [] ==> a[0] in a) && (b != [] ==> b[0] in b);
    if a != [] {
      var k :| 0 <= k < |a| && a[k] == b[0];
      var j :| 0 <= j < |b| && b[j] == a[0];
      ChainFollows(next, top, a, k, b, j);
    }
  }

  /** On the stack of a good state is what has no reference and no carrier. */
  lemma StackIs(p: Pool, w: Witness, s: nat)
    requires Good(p, w) && s < |p.refs|
    ensures s in w.chain <==> p.refs[s] == 0 && forall j :: 0 <= j < |p.threads| ==> Carried(p.threads[j]) != s
  {
    hide IsChain;
    assert SlabOk(p.refs, p.threads, w, s);
    forall j | 0 <= j < |p.threads| && Carried(p.threads[j]) == s
      ensures w.carrier[s] == j
    {
      assert ThreadOk(p.next, w, j, p.threads[j]);
    }
  }

  lemma ChainInPool(p: Pool, w: Witness)
    requires Good(p, w)
    ensures forall s :: s in w.chain ==> s < |p.refs|
  {
  }

  /** A winning exchange leaves every slab in exactly one place iff the successor that the
      thread read is still that of the head. */
  lemma ExchangeKeepsIffCurrent(p: Pool, w: Witness, i: nat, op: Op)
    requires Good(p, w) && Shape(p) && MayStart(p, i, op) && p.threads[i].Linked? && p.top == p.threads[i].t
    ensures InPool(p.threads[i], |p.next|)
    ensures InOrder(Act(p, i, op, false)) <==> p.threads[i].next == p.next[p.top]
  {
    assert InPool(p.threads[i], |p.next|);
    var p' := Act(p, i, op, false);
    if p.threads[i].next == p.next[p.top] {
      var w' := Pop(p, w, i);
    } else if w' :| Good(p', w') {
      ChainPops(p.top, p.next, w.chain);
      ChainInPool(p, w);
      ChainInPool(p', w');
      forall s: nat
        ensures s in w'.chain <==> s in w.chain[1..]
      {
        if s < |p.refs| {
          LeavesStack(p, w, i, w', s);
        }
      }
      SameSlabsSameHead(p.next, p.next[p.top], w.chain[1..], p'.top, w'.chain);
      assert false;
    }
  }

  lemma LeavesStack(p: Pool, w: Witness, i: nat, w': Witness, s: nat)
    requires Good(p, w) && i < |p.threads| && p.threads[i].Linked? && p.top == p.threads[i].t && s < |p.refs|
    requires 0 <= p.top < |p.next|
    requires Good(At(p, i, Taken(p.top)).(top := p.threads[i].next), w')
    ensures s in w'.chain <==> s in w.chain && s != p.top
  {
    hide Good;
    var p' := At(p, i, Taken(p.top)).(top := p.threads[i].next);
    StackIs(p, w, s);
    StackIs(p', w', s);
    assert p'.threads[i] == Taken(p.top);
    assert forall j :: 0 <= j < |p.threads| && j != i ==> p'.threads[j] == p.threads[j];
  }

  lemma Remembered(p: Pool, w: Witness, i: nat)
    requires Good(p, w) && i < |p.threads|
    ensures |p.next| == |w.carrier| && ThreadOk(p.next, w, i, p.threads[i])
  {
  }

  lemma Tallies(p: Pool, w: Witness)
    requires Good(p, w)
    ensures Good(p.(exhausted := p.exhausted + 1), w) && Good(p.(overflows := p.overflows + 1), w)
  {
  }

  // ---- Whole runs ----

  /** The stack as init() builds it: slab 0 on top, slab n - 1 last. */
  method Init(n: nat, threads: nat) returns (p: Pool, ghost w: Witness)
    requires n > 0
    ensures Good(p, w) && Shape(p) && |p.refs| == n && |p.threads| == threads && AllIdle(p) && p.free == n
  {
    var next: seq<int> := [];
    for i := 0 to n
      invariant |next| == i && forall k :: 0 <= k < i ==> next[k] == if k + 1 < n then k + 1 else -1
    {
      next := next + [if i + 1 < n then i + 1 else -1];
    }
    p := Pool(0, next, seq(n, _ => 0), n, 0, 0, seq(threads, _ => Idle));
    w := Witness(seq(n, i requires 0 <= i => i), seq(n, _ => -1));
    IdleLag(p.threads);
    assert IsChain(p.top, p.next, w.chain);
    forall s: nat | s < n
      ensures SlabOk(p.refs, p.threads, w, s)
    {
      assert w.chain[s] == s;
    }
  }

  ghost predicate AllIdle(p: Pool) {
    forall i :: 0 <= i < |p.threads| ==> p.threads[i].Idle?
  }

  lemma {:induction false} IdleLag(threads: seq<Thread>)
    requires forall i :: 0 <= i < |threads| ==> threads[i].Idle?
    ensures TotalLag(threads) == 0
  {
    if threads != [] {
      IdleLag(threads[1..]);
    }
  }

  datatype Choice = Choice(i: nat, op: Op, spurious: bool)

  /** The run from p that follows the choices, if each of them may be made. */
  ghost predicate Runs(p: Pool, choices: seq<Choice>, q: Pool)
    decreases |choices|
  {
    if choices == [] then q == p
    else
      var c := choices[0];
      Shape(p) && MayStart(p, c.i, c.op) && Runs(Act(p, c.i, c.op, c.spurious), choices[1..], q)
  }

  /** Every slab is in exactly one place all along the run. */
  ghost predicate StaysInOrder(p: Pool, choices: seq<Choice>)
    decreases |choices|
  {
    && InOrder(p)
    && (choices == [] ||
          (var c := choices[0];
           Shape(p) && MayStart(p, c.i, c.op) && StaysInOrder(Act(p, c.i, c.op, c.spurious), choices[1..])))
  }

  /** No acquire of the run wins its exchange with an outdated successor. */
  ghost predicate NeverStale(p: Pool, choices: seq<Choice>)
    decreases |choices|
  {
    choices == [] ||
    (var c := choices[0];
     && Shape(p) && MayStart(p, c.i, c.op) && !StaleWin(p, c.i, c.spurious)
     && NeverStale(Act(p, c.i, c.op, c.spurious), choices[1..]))
  }

  /** Any number of threads acquire and release: the pool stays in order throughout a run iff no
      winning exchange of the run is stale. */
  lemma {:induction false} EveryRun(p: Pool, w: Witness, choices: seq<Choice>, q: Pool)
    requires Good(p, w) && Shape(p) && Runs(p, choices, q)
    ensures Shape(q)
    ensures StaysInOrder(p, choices) <==> NeverStale(p, choices)
    ensures NeverStale(p, choices) ==> InOrder(q)
    decreases |choices|
  {
    hide Good, Act, Shape;
    if choices != [] {
      var c := choices[0];
      var p' := Act(p, c.i, c.op, c.spurious);
      ActInBounds(p, c.i, c.op, c.spurious);
      RunsInBounds(p', choices[1..], q);
      if StaleWin(p, c.i, c.spurious) {
        ExchangeKeepsIffCurrent(p, w, c.i, c.op);
      } else {
        var w' := ActKeeps(p, w, c.i, c.op, c.spurious);
        EveryRun(p', w', choices[1..], q);
      }
    }
  }

  lemma {:induction false} RunsInBounds(p: Pool, choices: seq<Choice>, q: Pool)
    requires Shape(p) && Runs(p, choices, q)
    ensures Shape(q)
    decreases |choices|
  {
    hide Act, Shape;
    if choices != [] {
      var c := choices[0];
      ActInBounds(p, c.i, c.op, c.spurious);
      RunsInBounds(Act(p, c.i, c.op, c.spurious), choices[1..], q);
    }
  }

  /** A thread enters acquire's loop only while no other is in it. */
  ghost predicate AloneIn(p: Pool, i: nat, op: Op) {
    i < |p.threads| && p.threads[i].Idle? && op.Acquire? ==> forall j :: 0 <= j < |p.threads| ==> !Acquiring(p.threads[j])
  }

  ghost predicate OneAtATime(p: Pool, choices: seq<Choice>)
    decreases |choices|
  {
    choices == [] ||
    (var c := choices[0];
     && Shape(p) && MayStart(p, c.i, c.op) && AloneIn(p, c.i, c.op)
     && OneAtATime(Act(p, c.i, c.op, c.spurious), choices[1..]))
  }

  /** The head that a thread in the loop read is on the stack, with the successor it read. */
  ghost predicate UpToDate(p: Pool, w: Witness, t: Thread) {
    Acquiring(t) ==> t.t in w.chain && 0 <= t.t < |p.next| && (t.Linked? ==> t.next == p.next[t.t])
  }

  /** At most one thread is in the loop, and it is up to date. */
  ghost predicate Lone(p: Pool, w: Witness) {
    && (forall i :: 0 <= i < |p.threads| ==> UpToDate(p, w, p.threads[i]))
    && forall i, j :: 0 <= i < j < |p.threads| ==> !Acquiring(p.threads[i]) || !Acquiring(p.threads[j])
  }

  lemma LoneKeeps(p: Pool, w: Witness, i: nat, op: Op, spurious: bool) returns (w': Witness)
    requires Good(p, w) && Shape(p) && MayStart(p, i, op) && Lone(p, w) && AloneIn(p, i, op)
    ensures !StaleWin(p, i, spurious)
    ensures Good(Act(p, i, op, spurious), w') && Lone(Act(p, i, op, spurious), w')
  {
    hide Good, SlabOk, IsChain, Shape;
    assert UpToDate(p, w, p.threads[i]);
    w' := ActKeeps(p, w, i, op, spurious);
    var p' := Act(p, i, op, spurious);
    Others(p, i, op, spurious);
    TopIsThere(p, w);
    TopIsThere(p', w');
    if p'.threads[i].Taken? {
      assert Acquiring(p.threads[i]);
    }
  }

  /** An access changes no other thread, enters the loop only from outside it, and reads the
      head and its successor as they are. */
  lemma Others(p: Pool, i: nat, op: Op, spurious: bool)
    requires Shape(p) && MayStart(p, i, op)
    ensures var p' := Act(p, i, op, spurious); var t := p'.threads[i];
            && |p'.threads| == |p.threads| && (forall j :: 0 <= j < |p.threads| && j != i ==> p'.threads[j] == p.threads[j])
            && (t.Taken? ==> p.threads[i].Linked?)
            && (Acquiring(t) ==> p'.top == p.top && p'.next == p.next)
            && (t.Loaded? ==> t.t == p.top && ((p.threads[i].Idle? && op.Acquire?) || p.threads[i].Linked?))
            && (t.Linked? ==> p.threads[i].Loaded? && t.t == p.threads[i].t && t.next == p.next[t.t])
  {
    assert InPool(p.threads[i], |p.next|);
  }

  lemma TopIsThere(p: Pool, w: Witness)
    requires Good(p, w)
    ensures p.top >= 0 ==> p.top in w.chain && p.top < |p.next|
  {
  }

  /** So one acquirer at a time is safe, with any number of releasers. */
  lemma {:induction false} OneAcquirerIsSafe(p: Pool, w: Witness, choices: seq<Choice>)
    requires Good(p, w) && Shape(p) && Lone(p, w) && OneAtATime(p, choices)
    ensures NeverStale(p, choices)
    decreases |choices|
  {
    hide Good, Act, Shape, Lone, StaleWin;
    if choices != [] {
      var c := choices[0];
      var w' := LoneKeeps(p, w, c.i, c.op, c.spurious);
      ActInBounds(p, c.i, c.op, c.spurious);
      OneAcquirerIsSafe(Act(p, c.i, c.op, c.spurious), w', choices[1..]);
    }
  }

  /** With no operation under way the free count is the length of the stack, which holds
      exactly the slabs without references: none is lost, none is free twice. */
  lemma AtRest(p: Pool, w: Witness)
    requires Good(p, w) && AllIdle(p)
    ensures p.free == |w.chain| && NoDup(w.chain)
    ensures forall s: nat :: s < |p.refs| ==> (s in w.chain <==> p.refs[s] == 0)
  {
    IdleLag(p.threads);
    forall s: nat | s < |p.refs|
      ensures s in w.chain <==> p.refs[s] == 0
    {
      assert SlabOk(p.refs, p.threads, w, s);
    }
  }

  /** The slab that acquire returns had no holder, was not on the stack and no other thread was
      moving it. */
  lemma HandedOutIsExclusive(p: Pool, w: Witness, i: nat, op: Op)
    requires Good(p, w) && Shape(p) && MayStart(p, i, op) && p.threads[i].Counted?
    ensures var s := p.threads[i].s;
            && p.refs[s] == 0 && s !in w.chain && Act(p, i, op, false).refs[s] == 1
            && forall j :: 0 <= j < |p.threads| && j != i ==> Carried(p.threads[j]) != s
  {
    var s := p.threads[i].s;
    assert ThreadOk(p.next, w, i, p.threads[i]);
    assert SlabOk(p.refs, p.threads, w, s);
    forall j | 0 <= j < |p.threads| && j != i
      ensures Carried(p.threads[j]) != s
    {
      assert ThreadOk(p.next, w, j, p.threads[j]);
    }
  }

  /** Releasing a slab that has no reference left, also when the last one went while this
      release was under way, only bumps the overflow counter: stack, references and free count
      stay, and the pool is as much in order as before. */
  lemma DoubleReleaseHarmless(p: Pool, w: Witness, i: nat, s: nat, spurious: bool)
    requires Good(p, w) && Shape(p) && i < |p.threads| && s < |p.refs| && p.refs[s] == 0
    requires p.threads[i].Idle? || (p.threads[i].Releasing? && p.threads[i].s == s)
    ensures Act(p, i, Release(s), spurious) == At(p, i, Idle).(overflows := p.overflows + 1)
    ensures Good(Act(p, i, Release(s), spurious), w)
  {
    assert p.threads[i].Idle? ==> At(p, i, Idle) == p;
    hide Good;
    Remembered(p, w, i);
    QuietMove(p, w, i, Idle);
    Tallies(At(p, i, Idle), w);
  }

  lemma {:induction false} OneMoreStep(p: Pool, choices: seq<Choice>, q: Pool, c: Choice)
    requires Runs(p, choices, q)
    requires Shape(q) && MayStart(q, c.i, c.op)
    ensures Runs(p, choices + [c], Act(q, c.i, c.op, c.spurious))
    decreases |choices|
  {
    if choices == [] {
      assert [c][1..] == [];
    } else {
      assert (choices + [c])[1..] == choices[1..] + [c];
      OneMoreStep(Act(p, choices[0].i, choices[0].op, choices[0].spurious), choices[1..], q, c);
    }
  }

  lemma Follow(p: Pool, choices: seq<Choice>, q: Pool, i: nat, op: Op, q': Pool) returns (choices': seq<Choice>)
    requires Runs(p, choices, q)
    requires Shape(q) && MayStart(q, i, op) && q' == Act(q, i, op, false)
    ensures Runs(p, choices', q')
  {
    OneMoreStep(p, choices, q, Choice(i, op, false));
    choices' := choices + [Choice(i, op, false)];
  }

  lemma Twice(p: Pool, i: nat, t: Thread, t': Thread)
    requires i < |p.threads|
    ensures At(At(p, i, t), i, t') == At(p, i, t')
  {
  }

  /** An undisturbed acquire by thread i. */
  lemma WholeAcquire(p: Pool, c: seq<Choice>, q: Pool, i: nat) returns (c': seq<Choice>)
    requires Runs(p, c, q) && Shape(q) && i < |q.threads| && q.threads[i].Idle?
    requires 0 <= q.top
    ensures Runs(p, c', q.(top := q.next[q.top], free := q.free - 1, refs := q.refs[q.top := 1]))
  {
    hide Runs;
    var t, n := q.top, q.next[q.top];
    Twice(q, i, Loaded(t), Linked(t, n));
    c' := Follow(p, c, q, i, Acquire, At(q, i, Loaded(t)));
    c' := Follow(p, c', At(q, i, Loaded(t)), i, Acquire, At(q, i, Linked(t, n)));
    var q1 := q.(top := n);
    c' := Follow(p, c', At(q, i, Linked(t, n)), i, Acquire, At(q1, i, Taken(t)));
    c' := Follow(p, c', At(q1, i, Taken(t)), i, Acquire, At(q1, i, Counted(t)).(free := q.free - 1));
    var q2 := q1.(free := q.free - 1, refs := q.refs[t := 1]);
    c' := Follow(p, c', At(q1, i, Counted(t)).(free := q.free - 1), i, Acquire, At(q2, i, Idle));
    assert At(q2, i, Idle) == q2;
  }

  /** An undisturbed release by thread i of a slab with one reference. */
  lemma WholeRelease(p: Pool, c: seq<Choice>, q: Pool, i: nat, s: nat) returns (c': seq<Choice>)
    requires Runs(p, c, q) && Shape(q) && i < |q.threads| && q.threads[i].Idle?
    requires s < |q.refs| && q.refs[s] == 1
    ensures Runs(p, c', q.(top := s, free := q.free + 1, refs := q.refs[s := 0], next := q.next[s := q.top]))
  {
    hide Runs;
    var r := Release(s);
    c' := Follow(p, c, q, i, r, At(q, i, Releasing(s, 1)));
    var q1 := q.(refs := q.refs[s := 0]);
    c' := Follow(p, c', At(q, i, Releasing(s, 1)), i, r, At(q1, i, Dropped(s)));
    c' := WholePush(p, c', q1, i, s);
  }

  lemma WholePush(p: Pool, c: seq<Choice>, q: Pool, i: nat, s: nat) returns (c': seq<Choice>)
    requires Shape(q) && i < |q.threads| && q.threads[i].Idle? && s < |q.next|
    requires Runs(p, c, At(q, i, Dropped(s)))
    ensures Runs(p, c', q.(top := s, free := q.free + 1, next := q.next[s := q.top]))
  {
    hide Runs;
    var r, h := Release(s), q.top;
    c' := Follow(p, c, At(q, i, Dropped(s)), i, r, At(q, i, Pushing(s, h)));
    var q2 := q.(next := q.next[s := h]);
    c' := Follow(p, c', At(q, i, Pushing(s, h)), i, r, At(q2, i, Chained(s, h)));
    var q3 := q2.(top := s);
    c' := Follow(p, c', At(q2, i, Chained(s, h)), i, r, At(q3, i, Pushed));
    var q4 := q3.(free := q.free + 1);
    c' := Follow(p, c', At(q3, i, Pushed), i, r, At(q4, i, Idle));
    assert At(q4, i, Idle) == q4;
  }

  lemma TwoFreeSlabs(p: Pool)
    requires p == Pool(0, [1, -1], [0, 0], 2, 0, 0, [Idle, Idle])
    ensures Good(p, Witness([0, 1], [-1, -1])) && AllIdle(p)
  {
    IdleLag(p.threads);
    var w := Witness([0, 1], [-1, -1]);
    forall s: nat | s < 2
      ensures SlabOk(p.refs, p.threads, w, s)
    {
      assert w.chain[0] == 0 && w.chain[1] == 1;
    }
  }

  lemma HeadIsRead(p: Pool) returns (c: seq<Choice>)
    requires p == Pool(0, [1, -1], [0, 0], 2, 0, 0, [Idle, Idle])
    ensures Runs(p, c, p.(threads := [Linked(0, 1), Idle]))
  {
    assert Runs(p, [], p);
    hide Runs;
    var q := p.(threads := [Loaded(0), Idle]);
    c := Follow(p, [], p, 0, Acquire, q);
    c := Follow(p, c, q, 0, Acquire, p.(threads := [Linked(0, 1), Idle]));
  }

  lemma TopIsFree(p: Pool, w: Witness)
    requires Good(p, w) && p.top >= 0
    ensures p.top < |p.refs| && p.refs[p.top] == 0
  {
    assert SlabOk(p.refs, p.threads, w, p.top);
  }

  /** A held slab on top of the stack is in two places. */
  lemma HeldOnTop(p: Pool)
    requires 0 <= p.top < |p.refs| && p.refs[p.top] > 0
    ensures !InOrder(p)
  {
    if w :| Good(p, w) {
      TopIsFree(p, w);
    }
  }

  /** A second acquirer can make an exchange stale, because the head carries no version.
      Thread 0 reads slab 0 and its successor 1; thread 1 acquires both slabs and releases
      slab 0; thread 0's exchange then succeeds and puts slab 1, which is held, on top. */
  lemma TwoAcquirersBreak() returns (p: Pool, w: Witness, choices: seq<Choice>, q: Pool)
    ensures Good(p, w) && AllIdle(p) && Runs(p, choices, q)
    ensures |q.refs| == 2 && q.top == 1 && q.refs[1] == 1 && !InOrder(q)
  {
    hide Runs, Good;
    p, w := Pool(0, [1, -1], [0, 0], 2, 0, 0, [Idle, Idle]), Witness([0, 1], [-1, -1]);
    TwoFreeSlabs(p);
    choices := HeadIsRead(p);
    choices := ReleasedBehind(p, choices, p.(threads := [Linked(0, 1), Idle]));
    var q' := Pool(0, [-1, -1], [0, 1], 1, 0, 0, [Linked(0, 1), Idle]);
    q := Pool(1, [-1, -1], [0, 1], 1, 0, 0, [Taken(0), Idle]);
    choices := Follow(p, choices, q', 0, Acquire, q);
    HeldOnTop(q);
  }

  /** What thread 1 does meanwhile. */
  lemma ReleasedBehind(p: Pool, c: seq<Choice>, q: Pool) returns (c': seq<Choice>)
    requires Runs(p, c, q) && q == Pool(0, [1, -1], [0, 0], 2, 0, 0, [Linked(0, 1), Idle])
    ensures Runs(p, c', Pool(0, [-1, -1], [0, 1], 1, 0, 0, q.threads))
  {
    hide Runs;
    c' := WholeAcquire(p, c, q, 1);
    assert q.refs[0 := 1] == [1, 0];
    var q1 := Pool(1, [1, -1], [1, 0], 1, 0, 0, q.threads);
    c' := WholeAcquire(p, c', q1, 1);
    assert q1.refs[1 := 1] == [1, 1];
    var q2 := Pool(-1, [1, -1], [1, 1], 0, 0, 0, q.threads);
    c' := WholeRelease(p, c', q2, 1, 0);
    assert q2.refs[0 := 0] == [0, 1] && q2.next[0 := -1] == [-1, -1];
  }
}
