/** The sender's out-of-window retransmissions: numbers that the windows have released but
    the cloud still misses are re-read from the file, parity being rebuilt, and sent again. */
module OutOfWindowRetransmission {
  import opened Bytes
  import opened Layout
  import opened Queues
  import opened FecEncoding
  import opened Outside

  const OOW_QUEUE_SIZE := 1024
  const OOW_RECENT_SIZE := 128
  const OOW_RECENT_SUPPRESS_MS := 1500
  const OOW_MAX_PER_TICK := 4
  const OOW_BASE_MS := 25
  const OOW_PER_HOP_MS := 10
  const OOW_BACKLOG_HIGH := 32
  const OOW_BACKLOG_CRITICAL := 96
  const OOW_MIN_INTERVAL_MS := 8

  /** The group of a number below the advertised count is full if the number is a parity. */
  lemma ParityGroupIsFull(file: seq<byte>, s: nat, i: nat)
    requires s < Total(|file|, TRANSFER_FRAGMENT_SIZE, true) && IsParity(s) && i < 7
    ensures (s / 8 * 7 + i) * TRANSFER_FRAGMENT_SIZE < |file|
    ensures |Chunk(file, TRANSFER_FRAGMENT_SIZE, s / 8 * 7 + i)| <= TRANSFER_FRAGMENT_SIZE
  {
    CountCoversExactly(DataFragments(|file|, TRANSFER_FRAGMENT_SIZE), s);
    ChunkShape(file, TRANSFER_FRAGMENT_SIZE, s / 8 * 7 + i);
  }

  lemma DataIsInside(file: seq<byte>, s: nat)
    requires s < Total(|file|, TRANSFER_FRAGMENT_SIZE, true) && !IsParity(s)
    ensures DataIndex(s) * TRANSFER_FRAGMENT_SIZE < |file|
    ensures Assigned(file, s, Chunk(file, TRANSFER_FRAGMENT_SIZE, DataIndex(s)))
    ensures Chunk(file, TRANSFER_FRAGMENT_SIZE, DataIndex(s)) != []
  {
    CountCoversExactly(DataFragments(|file|, TRANSFER_FRAGMENT_SIZE), s);
    ChunkShape(file, TRANSFER_FRAGMENT_SIZE, DataIndex(s));
  }

  lemma ParityIsNotEmpty(file: seq<byte>, s: nat)
    requires s < Total(|file|, TRANSFER_FRAGMENT_SIZE, true) && IsParity(s)
    ensures Assigned(file, s, Parity(Group(file, TRANSFER_FRAGMENT_SIZE, s / 8)))
    ensures Parity(Group(file, TRANSFER_FRAGMENT_SIZE, s / 8)) != []
  {
    CountCoversExactly(DataFragments(|file|, TRANSFER_FRAGMENT_SIZE), s);
    ParityShape(file, TRANSFER_FRAGMENT_SIZE, s / 8);
  }

  /** Rebuilds the parity of a full group from the file; readOk says which of its fragments
      could be read. Failed reads are folded in as empty fragments. */
  method RegenerateParity(file: seq<byte>, s: nat, readOk: seq<bool>) returns (data: seq<byte>)
    requires s < Total(|file|, TRANSFER_FRAGMENT_SIZE, true) && IsParity(s) && |readOk| == 7
    ensures data == Parity(Seen(Group(file, TRANSFER_FRAGMENT_SIZE, s / 8), readOk))
  {
    hide Parity, Chunk, Total, FecEncoder.Valid;
    var enc := new FecEncoder();
    enc.Reset();
    ghost var group := Group(file, TRANSFER_FRAGMENT_SIZE, s / 8);
    for d := 0 to 7
      invariant enc.Valid() && fresh(enc) && fresh(enc.parity) && |enc.group| == d
      invariant forall k :: 0 <= k < d ==> enc.group[k] == if readOk[k] then group[k] else []
    {
      var di := s / 8 * 7 + d;
      ParityGroupIsFull(file, s, d);
      if di * TRANSFER_FRAGMENT_SIZE >= |file| {
        assert false;
      }
      var got := ReadFragment(file, di, readOk[d]);
      enc.Ingest(got);
    }
    data := enc.Data();
    assert enc.group == Seen(group, readOk);
  }

  /** What the file yields for number s: its fragment, or the parity of what could be read. */
  function Reread(file: seq<byte>, s: nat, readOk: seq<bool>): (data: seq<byte>)
    requires |readOk| == 7
  {
    if IsParity(s) then Parity(Seen(Group(file, TRANSFER_FRAGMENT_SIZE, s / 8), readOk))
    else if readOk[0] then Chunk(file, TRANSFER_FRAGMENT_SIZE, DataIndex(s))
    else []
  }

  ghost predicate AllRead(readOk: seq<bool>) {
    |readOk| == 7 && forall i :: 0 <= i < 7 ==> readOk[i]
  }

  /** When all reads succeed, what is re-read is what the layout assigns. */
  lemma RereadIsAssigned(file: seq<byte>, s: nat, readOk: seq<bool>)
    requires s < Total(|file|, TRANSFER_FRAGMENT_SIZE, true) && AllRead(readOk)
    ensures Assigned(file, s, Reread(file, s, readOk)) && Reread(file, s, readOk) != []
  {
    hide Total, Parity, Chunk;
    if IsParity(s) {
      var group := Group(file, TRANSFER_FRAGMENT_SIZE, s / 8);
      assert Seen(group, readOk) == group;
      ParityIsNotEmpty(file, s);
    } else {
      DataIsInside(file, s);
    }
  }

  /** The group as the rebuild sees it: fragments whose read failed count as empty. */
  function Seen(group: seq<seq<byte>>, ok: seq<bool>): (r: seq<seq<byte>>)
    requires |ok| == |group|
  {
    seq(|group|, i requires 0 <= i < |group| => if ok[i] then group[i] else [])
  }

  /** The fragments that were not read. */
  function Unread(group: seq<seq<byte>>, ok: seq<bool>): (r: seq<seq<byte>>)
    requires |ok| == |group|
  {
    seq(|group|, i requires 0 <= i < |group| => if ok[i] then [] else group[i])
  }

  function Xor(a: byte, b: byte): byte {
    a ^ b
  }

  lemma {:induction false} SeenXorUnread(group: seq<seq<byte>>, ok: seq<bool>, j: nat)
    requires |ok| == |group|
    ensures XorAt(group, j) == Xor(XorAt(Seen(group, ok), j), XorAt(Unread(group, ok), j))
  {
    if group != [] {
      hide XorAt, At, Xor;
      var n := |group| - 1;
      SeenXorUnread(group[..n], ok[..n], j);
      var seen, unread := Seen(group, ok), Unread(group, ok);
      SeenPrefix(group, ok, n);
      LastXor(group, j);
      LastXor(seen, j);
      LastXor(unread, j);
      SeenAt(group, ok, n, j);
      XorRegroups(XorAt(group[..n], j), XorAt(seen[..n], j), XorAt(unread[..n], j), At(group[n], j), At(seen[n], j), At(unread[n], j));
    }
  }

  lemma SeenPrefix(group: seq<seq<byte>>, ok: seq<bool>, n: nat)
    requires |ok| == |group| && n <= |group|
    ensures |Seen(group, ok)| == |Unread(group, ok)| == |group|
    ensures Seen(group, ok)[..n] == Seen(group[..n], ok[..n]) && Unread(group, ok)[..n] == Unread(group[..n], ok[..n])
  {
  }

  lemma SeenAt(group: seq<seq<byte>>, ok: seq<bool>, i: nat, j: nat)
    requires |ok| == |group| && i < |group|
    ensures |Seen(group, ok)| == |Unread(group, ok)| == |group|
    ensures At(group[i], j) == Xor(At(Seen(group, ok)[i], j), At(Unread(group, ok)[i], j))
  {
  }

  lemma LastXor(frags: seq<seq<byte>>, j: nat)
    requires frags != []
    ensures XorAt(frags, j) == Xor(XorAt(frags[..|frags| - 1], j), At(frags[|frags| - 1], j))
  {
  }

  lemma XorRegroups(g: byte, s: byte, u: byte, g': byte, s': byte, u': byte)
    requires g == Xor(s, u) && g' == Xor(s', u')
    ensures Xor(g, g') == Xor(Xor(s, s'), Xor(u, u'))
  {
  }

  ghost predicate XorIsZero(frags: seq<seq<byte>>, n: nat) {
    forall j: nat :: j < n ==> XorAt(frags, j) == 0
  }

  lemma XorCancels(a: byte, b: byte, c: byte)
    requires a == Xor(b, c)
    ensures a == b <==> c == 0
  {
  }

  lemma {:induction false} MaxLenAttained(frags: seq<seq<byte>>)
    requires frags != []
    ensures exists i :: 0 <= i < |frags| && |frags[i]| == MaxLen(frags)
  {
    var n := |frags| - 1;
    if |frags[n]| != MaxLen(frags) {
      MaxLenAttained(frags[..n]);
      var i :| 0 <= i < n && |frags[..n][i]| == MaxLen(frags[..n]);
      assert |frags[i]| == MaxLen(frags);
    }
  }

  ghost predicate SameXor(a: seq<seq<byte>>, b: seq<seq<byte>>, n: nat) {
    forall j: nat :: j < n ==> XorAt(a, j) == XorAt(b, j)
  }

  lemma SameParityIff(a: seq<seq<byte>>, b: seq<seq<byte>>)
    ensures Parity(a) == Parity(b) <==> MaxLen(a) == MaxLen(b) && SameXor(a, b, MaxLen(a))
  {
    hide XorAt, MaxLen;
    if Parity(a) == Parity(b) {
      forall j: nat | j < MaxLen(a)
        ensures XorAt(a, j) == XorAt(b, j)
      {
        assert Parity(a)[j] == Parity(b)[j];
      }
    }
  }

  lemma SeenSameXorIff(group: seq<seq<byte>>, ok: seq<bool>, n: nat)
    requires |ok| == |group|
    ensures SameXor(Seen(group, ok), group, n) <==> XorIsZero(Unread(group, ok), n)
  {
    hide XorAt;
    forall j: nat
      ensures XorAt(Seen(group, ok), j) == XorAt(group, j) <==> XorAt(Unread(group, ok), j) == 0
    {
      SeenXorUnread(group, ok, j);
      XorCancels(XorAt(group, j), XorAt(Seen(group, ok), j), XorAt(Unread(group, ok), j));
    }
  }

  /** How far failed reads spoil the rebuilt parity: it is still the layout's parity iff some
      full-length fragment was read and the unread ones XOR to zero. A single failed read is
      therefore harmless only for a fragment of zeros. */
  lemma FailedReadsHarmlessIff(group: seq<seq<byte>>, cs: nat, ok: seq<bool>)
    requires |group| == 7 == |ok| && forall i :: 0 <= i < 7 ==> |group[i]| <= cs
    requires |group[0]| == cs
    ensures Parity(Seen(group, ok)) == Parity(group) <==>
              && (exists i :: 0 <= i < 7 && |Seen(group, ok)[i]| == cs)
              && XorIsZero(Unread(group, ok), cs)
  {
    hide XorAt, MaxLen, SameXor, XorIsZero, Parity;
    var seen := Seen(group, ok);
    MaxLenBounds(group, 0);
    MaxLenLeast(group, cs);
    MaxLenLeast(seen, cs);
    MaxLenAttained(seen);
    if i :| 0 <= i < 7 && |seen[i]| == cs {
      MaxLenBounds(seen, i);
    }
    SameParityIff(seen, group);
    SeenSameXorIff(group, ok, cs);
  }

  /** A group in which only the first fragment is not zero, and its read fails: the rebuilt
      parity is not the right one. */
  lemma FailedReadSpoilsParity()
    ensures var group, ok := [[1], [0], [0], [0], [0], [0], [0]], [false, true, true, true, true, true, true];
            Parity(Seen(group, ok)) != Parity(group)
  {
    var zeros: seq<seq<byte>> := [[0], [0], [0], [0], [0], [0]];
    var group: seq<seq<byte>> := [[1]] + zeros;
    var ok := [false, true, true, true, true, true, true];
    assert group == [[1], [0], [0], [0], [0], [0], [0]];
    FailedReadsHarmlessIff(group, 1, ok);
    FirstUnread(group, ok);
  }

  /** Only the first fragment was not read: what is unread XORs to that fragment. */
  lemma FirstUnread(group: seq<seq<byte>>, ok: seq<bool>)
    requires |group| == |ok| == 7 && group[0] == [1] && ok == [false, true, true, true, true, true, true]
    ensures !XorIsZero(Unread(group, ok), 1)
  {
    var u := Unread(group, ok);
    assert u == [[1], [], [], [], [], [], []];
    LastXor(u, 0);
    LastXor(u[..6], 0);
    LastXor(u[..5], 0);
    LastXor(u[..4], 0);
    LastXor(u[..3], 0);
    LastXor(u[..2], 0);
    LastXor(u[..1], 0);
    assert u[..6][..5] == u[..5] && u[..5][..4] == u[..4] && u[..4][..3] == u[..3] && u[..3][..2] == u[..2] && u[..2][..1] == u[..1];
    assert u[..1][..0] == [];
  }

  /** The ring that remembers what was re-sent lately. */
  datatype Recent = Recent(seqs: seq<nat>, ms: seq<nat>, write: nat)

  ghost predicate RecentOk(r: Recent) {
    |r.seqs| == |r.ms| == OOW_RECENT_SIZE && r.write < OOW_RECENT_SIZE
  }

  /** Number s was re-sent less than the suppression time ago. */
  predicate Suppressed(r: Recent, s: nat, now: nat)
    requires |r.seqs| == |r.ms|
  {
    exists i :: 0 <= i < |r.seqs| && r.ms[i] != 0 && r.seqs[i] == s && now - r.ms[i] < OOW_RECENT_SUPPRESS_MS
  }

  /** The elected exits as the drain sees them. */
  datatype Exits = Exits(addrs: seq<nat>, alive: seq<bool>)

  ghost predicate IsAliveExit(e: Exits, addr: nat) {
    exists i :: 0 <= i < |e.addrs| && i < |e.alive| && e.alive[i] && e.addrs[i] == addr
  }

  /** A packet is good when it carries the layout's payload for its number. */
  ghost predicate AllAssigned(file: seq<byte>, packets: seq<(nat, nat, seq<byte>)>) {
    forall p :: p in packets ==> Assigned(file, p.1, p.2)
  }

  /** The layout's payload of s went out to some exit. */
  ghost predicate WasSent(file: seq<byte>, wire: seq<(nat, nat, seq<byte>)>, s: nat) {
    exists to :: (to, s, Payload(file, TRANSFER_FRAGMENT_SIZE, true, s)) in wire
  }

  /** The first alive exit or, if there is none, the first exit. */
  ghost predicate IsFirstAlive(e: Exits, addr: nat) {
    || (exists i :: 0 <= i < |e.addrs| && i < |e.alive| && e.alive[i] && e.addrs[i] == addr && forall k :: 0 <= k < i ==> !e.alive[k])
    || ((forall i :: 0 <= i < |e.alive| ==> !e.alive[i]) && |e.addrs| > 0 && e.addrs[0] == addr)
  }

  /** Where a number goes that was requested by the given exit: there if it is alive. */
  ghost predicate Destined(e: Exits, wanted: nat, to: nat) {
    && (IsAliveExit(e, wanted) && NoDup(e.addrs) ==> to == wanted)
    && (!IsAliveExit(e, wanted) ==> IsFirstAlive(e, to))
    && ((exists i :: 0 <= i < |e.alive| && e.alive[i]) ==> IsAliveExit(e, to))
  }

  /** One more packet: number s with the given data, to where it is destined. */
  ghost predicate GoesTo(e: Exits, wanted: nat, wire': seq<(nat, nat, seq<byte>)>, wire: seq<(nat, nat, seq<byte>)>, s: nat, data: seq<byte>) {
    && |wire'| == |wire| + 1
    && wire' == wire + [(wire'[|wire|].0, s, data)]
    && Destined(e, wanted, wire'[|wire|].0)
  }

  /** Which exit requested each waiting number. */
  ghost function Route(q: seq<nat>, d: seq<nat>): map<nat, nat>
    requires NoDup(q) && |q| == |d|
  {
    map k | 0 <= k < |q| :: q[k] := d[k]
  }

  lemma RouteRemove(q: seq<nat>, d: seq<nat>, k: nat)
    requires NoDup(q) && |q| == |d| && k < |q|
    ensures NoDup(RemoveAt(q, k)) && |RemoveAt(d, k)| == |RemoveAt(q, k)|
    ensures Route(RemoveAt(q, k), RemoveAt(d, k)) == Route(q, d) - {q[k]}
  {
    hide Route, RemoveAt;
    RemoveAtMembers(q, k);
    var q', d' := RemoveAt(q, k), RemoveAt(d, k);
    SameLength(q, d, k);
    RouteMembers(q, d);
    RouteMembers(q', d');
    forall s | s in q'
      ensures Route(q', d')[s] == Route(q, d)[s]
    {
      var j :| 0 <= j < |q'| && q'[j] == s;
      RemovedAt(q, d, k, j);
    }
    assert Route(q', d').Keys == Route(q, d).Keys - {q[k]};
  }

  lemma SameLength(q: seq<nat>, d: seq<nat>, k: nat)
    requires |q| == |d| && k < |q|
    ensures |RemoveAt(d, k)| == |RemoveAt(q, k)|
  {
  }

  lemma RemovedAt(q: seq<nat>, d: seq<nat>, k: nat, j: nat)
    requires |q| == |d| && k < |q| && j < |RemoveAt(q, k)|
    ensures |RemoveAt(d, k)| == |RemoveAt(q, k)| == |q| - 1
    ensures var i := if j < k then j else j + 1; RemoveAt(q, k)[j] == q[i] && RemoveAt(d, k)[j] == d[i]
  {
  }

  lemma RouteAppend(q: seq<nat>, d: seq<nat>, s: nat, to: nat)
    requires NoDup(q) && |q| == |d| && s !in q
    ensures NoDup(q + [s]) && Route(q + [s], d + [to]) == Route(q, d)[s := to]
  {
    var q', d' := q + [s], d + [to];
    assert forall j :: 0 <= j < |q| ==> q'[j] == q[j] && d'[j] == d[j] && q[j] in q;
    assert q'[|q|] == s && d'[|q|] == to;
  }

  lemma RouteSet(q: seq<nat>, d: seq<nat>, k: nat, to: nat)
    requires NoDup(q) && |q| == |d| && k < |q|
    ensures Route(q, d[k := to]) == Route(q, d)[q[k] := to] && q[k] in Route(q, d) && Route(q, d)[q[k]] == d[k]
  {
    var d' := d[k := to];
    assert forall j :: 0 <= j < |q| && j != k ==> q[j] != q[k] && d'[j] == d[j];
  }

  lemma RouteMembers(q: seq<nat>, d: seq<nat>)
    requires NoDup(q) && |q| == |d|
    ensures forall s :: s in Route(q, d) <==> s in q
    ensures forall k :: 0 <= k < |q| ==> q[k] in Route(q, d) && Route(q, d)[q[k]] == d[k]
  {
  }

  /** Every number left keeps its destination, except that a number deferred after a refusal
      is from now on destined for where it was just offered. */
  ghost predicate RoutesKept(e: Exits, was: map<nat, nat>, now: map<nat, nat>, deferred: int) {
    forall s :: s in now ==> s in was && if s == deferred then Destined(e, was[s], now[s]) else now[s] == was[s]
  }

  /** The same in the middle of a pass, of what waits then. */
  ghost predicate RoutedSoFar(e: Exits, was: map<nat, nat>, q: seq<nat>, d: seq<nat>, deferred: int) {
    NoDup(q) && |q| == |d| && RoutesKept(e, was, Route(q, d), deferred)
  }

  lemma RoutesAtStart(e: Exits, q: seq<nat>, d: seq<nat>)
    requires NoDup(q) && |q| == |d|
    ensures RoutedSoFar(e, Route(q, d), q, d, -1)
  {
  }

  lemma RoutesAtEnd(e: Exits, was: map<nat, nat>, q: seq<nat>, d: seq<nat>, deferred: int)
    requires RoutedSoFar(e, was, q, d, deferred)
    ensures NoDup(q) && |q| == |d| && RoutesKept(e, was, Route(q, d), deferred)
  {
  }

  /** One entry was taken out, deferred to another exit or kept as it was. */
  lemma RouteStep(e: Exits, was: map<nat, nat>, q: seq<nat>, d: seq<nat>, k: nat, q': seq<nat>, d': seq<nat>, gone: bool, refused: bool,
                  deferred: int)
    returns (deferred': int)
    requires k < |q| && k < |d| && RoutedSoFar(e, was, q, d, deferred) && (refused ==> deferred == -1 && !gone)
    requires q' == if gone then RemoveAt(q, k) else q
    requires if gone then d' == RemoveAt(d, k) else if refused then exists to :: Destined(e, d[k], to) && d' == d[k := to] else d' == d
    ensures deferred' == if refused then q[k] else deferred
    ensures RoutedSoFar(e, was, q', d', deferred')
  {
    hide Route, RemoveAt, Destined;
    deferred' := if refused then q[k] else deferred;
    if gone {
      RouteRemove(q, d, k);
    } else if refused {
      var to :| Destined(e, d[k], to) && d' == d[k := to];
      RouteSet(q, d, k, to);
    }
  }

  /** What became of a number that left the queue: it went where it was destined, with what
      the file yielded, or the file yielded nothing of its group. */
  ghost predicate Fate(file: seq<byte>, e: Exits, s: nat, wanted: nat, readOk: seq<bool>, out: seq<(nat, nat, seq<byte>)>)
    requires |readOk| == 7
  {
    || (IsParity(s) && Reread(file, s, readOk) == [])
    || exists k :: 0 <= k < |out| && out[k].1 == s && out[k].2 == Reread(file, s, readOk) && Destined(e, wanted, out[k].0)
  }

  ghost predicate AllFates(file: seq<byte>, e: Exits, was: seq<nat>, dst: seq<nat>, waiting: seq<nat>, readOk: nat -> seq<bool>,
                           out: seq<(nat, nat, seq<byte>)>)
    requires |dst| == |was| && forall k :: |readOk(k)| == 7
  {
    forall j :: 0 <= j < |was| && was[j] !in waiting ==> Fate(file, e, was[j], dst[j], readOk(j), out)
  }

  lemma FatesNone(file: seq<byte>, e: Exits, was: seq<nat>, dst: seq<nat>, readOk: nat -> seq<bool>)
    requires |dst| == |was| && forall k :: |readOk(k)| == 7
    ensures AllFates(file, e, was, dst, was, readOk, [])
  {
  }

  lemma FateStays(file: seq<byte>, e: Exits, s: nat, wanted: nat, readOk: seq<bool>, out: seq<(nat, nat, seq<byte>)>,
                  more: seq<(nat, nat, seq<byte>)>)
    requires |readOk| == 7 && Fate(file, e, s, wanted, readOk, out)
    ensures Fate(file, e, s, wanted, readOk, out + more)
  {
    hide Destined, Reread;
    if k :| 0 <= k < |out| && out[k].1 == s && out[k].2 == Reread(file, s, readOk) && Destined(e, wanted, out[k].0) {
      assert (out + more)[k] == out[k];
    }
  }

  lemma FateOf(file: seq<byte>, e: Exits, s: nat, wanted: nat, readOk: seq<bool>, out: seq<(nat, nat, seq<byte>)>,
               wire0: seq<(nat, nat, seq<byte>)>, wire: seq<(nat, nat, seq<byte>)>)
    requires |readOk| == 7 && GoesTo(e, wanted, wire, wire0, s, Reread(file, s, readOk))
    ensures Fate(file, e, s, wanted, readOk, out + [wire[|wire0|]])
  {
    hide Destined, Reread;
    assert (out + [wire[|wire0|]])[|out|] == wire[|wire0|];
  }

  /** Entry i left the queue: sent, or unreadable. */
  lemma EntryLeft(file: seq<byte>, e: Exits, was: seq<nat>, dst: seq<nat>, waiting: seq<nat>, k: nat, i: nat, readOk: nat -> seq<bool>,
                  out: seq<(nat, nat, seq<byte>)>, wire0: seq<(nat, nat, seq<byte>)>, wire: seq<(nat, nat, seq<byte>)>, took: bool)
    requires |dst| == |was| && (forall j :: |readOk(j)| == 7) && AllFates(file, e, was, dst, waiting, readOk, out)
    requires NoDup(was) && NoDup(waiting) && k < |waiting| && i < |was| && waiting[k] == was[i]
    requires if took then GoesTo(e, dst[i], wire, wire0, was[i], Reread(file, was[i], readOk(i)))
             else IsParity(was[i]) && Reread(file, was[i], readOk(i)) == []
    ensures AllFates(file, e, was, dst, RemoveAt(waiting, k), readOk, if took then out + [wire[|wire0|]] else out)
  {
    hide AllFates, Reread, Destined, NoDup;
    if took {
      FateOf(file, e, was[i], dst[i], readOk(i), out, wire0, wire);
      FatesNext(file, e, was, dst, waiting, k, i, readOk, out, [wire[|wire0|]]);
    } else {
      assert out + [] == out;
      FatesNext(file, e, was, dst, waiting, k, i, readOk, out, []);
    }
  }

  /** Entry i of the queue leaves it. */
  lemma FatesNext(file: seq<byte>, e: Exits, was: seq<nat>, dst: seq<nat>, waiting: seq<nat>, k: nat, i: nat, readOk: nat -> seq<bool>,
                  out: seq<(nat, nat, seq<byte>)>, more: seq<(nat, nat, seq<byte>)>)
    requires |dst| == |was| && (forall j :: |readOk(j)| == 7) && AllFates(file, e, was, dst, waiting, readOk, out)
    requires NoDup(was) && NoDup(waiting) && k < |waiting| && i < |was| && waiting[k] == was[i]
    requires Fate(file, e, was[i], dst[i], readOk(i), out + more)
    ensures AllFates(file, e, was, dst, RemoveAt(waiting, k), readOk, out + more)
  {
    hide Fate;
    RemoveAtMembers(waiting, k);
    forall j | 0 <= j < |was| && was[j] !in RemoveAt(waiting, k)
      ensures Fate(file, e, was[j], dst[j], readOk(j), out + more)
    {
      if j != i {
        assert was[j] != was[i];
        FateStays(file, e, was[j], dst[j], readOk(j), out, more);
      }
    }
  }

  /** The packets out carry assigned payloads, and what left the queue was sent. */
  ghost predicate Settled(file: seq<byte>, was: seq<nat>, waiting: seq<nat>, wire: seq<(nat, nat, seq<byte>)>, out: seq<(nat, nat, seq<byte>)>) {
    AllAssigned(file, out) && forall s :: s in was && s !in waiting ==> WasSent(file, wire, s)
  }

  /** What waits is left of what waited: in order, each number once, all inside the file. */
  ghost predicate LeftOf(file: seq<byte>, was: seq<nat>, waiting: seq<nat>) {
    && Subsequence(waiting, was) && NoDup(waiting)
    && forall s :: s in waiting ==> s < Total(|file|, TRANSFER_FRAGMENT_SIZE, true)
  }

  lemma LeftAtStart(file: seq<byte>, was: seq<nat>)
    requires NoDup(was) && forall s :: s in was ==> s < Total(|file|, TRANSFER_FRAGMENT_SIZE, true)
    ensures LeftOf(file, was, was)
  {
    SubsequenceRefl(was);
  }

  lemma LeftAfter(file: seq<byte>, was: seq<nat>, waiting: seq<nat>, k: nat)
    requires LeftOf(file, was, waiting) && k < |waiting|
    ensures waiting[k] < Total(|file|, TRANSFER_FRAGMENT_SIZE, true) && NoDup(waiting)
    ensures LeftOf(file, was, RemoveAt(waiting, k)) && |RemoveAt(waiting, k)| == |waiting| - 1
  {
    hide Subsequence, Total;
    assert waiting[k] in waiting;
    RemoveAtMembers(waiting, k);
    DropFromSubsequence(waiting, was, k);
  }

  lemma LeftAtEnd(file: seq<byte>, was: seq<nat>, waiting: seq<nat>)
    requires LeftOf(file, was, waiting)
    ensures Subsequence(waiting, was) && NoDup(waiting)
  {
  }

  lemma WhatWasSettled(file: seq<byte>, was: seq<nat>, waiting: seq<nat>, wire: seq<(nat, nat, seq<byte>)>, out: seq<(nat, nat, seq<byte>)>)
    requires Settled(file, was, waiting, wire, out)
    ensures AllAssigned(file, out) && forall s :: s in was && s !in waiting ==> WasSent(file, wire, s)
  {
  }

  lemma SettledNone(file: seq<byte>, was: seq<nat>, wire: seq<(nat, nat, seq<byte>)>)
    ensures Settled(file, was, was, wire, [])
  {
  }

  lemma SettledNext(file: seq<byte>, was: seq<nat>, waiting: seq<nat>, wire: seq<(nat, nat, seq<byte>)>, out: seq<(nat, nat, seq<byte>)>,
                    k: nat, packet: (nat, nat, seq<byte>))
    requires Settled(file, was, waiting, wire, out) && LeftOf(file, was, waiting) && k < |waiting|
    requires packet.1 == waiting[k] && Assigned(file, packet.1, packet.2)
    ensures Settled(file, was, RemoveAt(waiting, k), wire + [packet], out + [packet])
  {
    hide Payload, Total;
    RemoveAtMembers(waiting, k);
    forall s | s in was && s !in RemoveAt(waiting, k)
      ensures WasSent(file, wire + [packet], s)
    {
      if s == waiting[k] {
        assert packet in wire + [packet];
      } else {
        var to :| (to, s, Payload(file, TRANSFER_FRAGMENT_SIZE, true, s)) in wire;
        assert (to, s, Payload(file, TRANSFER_FRAGMENT_SIZE, true, s)) in wire + [packet];
      }
    }
  }

  ghost predicate Accepting(answers: nat -> int) {
    forall k :: answers(k) >= 0
  }

  /** Every read of the file succeeds. */
  ghost predicate Readable(readOk: nat -> seq<bool>) {
    forall k :: AllRead(readOk(k))
  }

  datatype Pacing = Pacing(budget: nat, intervalMs: nat)

  /** How much may be re-sent at a tick, and how long after the last re-send. */
  function Pace(backlog: nat, hops: nat): Pacing {
    var interval := OOW_BASE_MS + OOW_PER_HOP_MS * hops;
    if backlog >= OOW_BACKLOG_CRITICAL then Pacing(4, OOW_MIN_INTERVAL_MS)
    else if backlog >= OOW_BACKLOG_HIGH then Pacing(2, if interval > 15 then 15 else interval)
    else Pacing(OOW_MAX_PER_TICK, interval)
  }

  /** The faster the backlog grows, the shorter the pause: 8 ms from 96 numbers on, 15 ms from 32
      on whatever the distance, and only in between half the budget. */
  lemma PaceIs(backlog: nat, hops: nat)
    ensures Pace(backlog, hops).budget == if 32 <= backlog < 96 then 2 else 4
    ensures Pace(backlog, hops).intervalMs == if backlog < 32 then 25 + 10 * hops else if backlog < 96 then 15 else 8
  {
  }

  /** A packet with number s went to the given exit. */
  ghost predicate SentTo(out: seq<(nat, nat, seq<byte>)>, to: nat, s: nat) {
    exists k :: 0 <= k < |out| && out[k].0 == to && out[k].1 == s
  }

  lemma OutsideAt(readOk: nat -> seq<bool>, answers: nat -> int, k: nat)
    ensures Readable(readOk) ==> AllRead(readOk(k))
    ensures Accepting(answers) ==> answers(k) >= 0
  {
  }

  /** The exit is one of the elected ones, all different, and alive. */
  ghost predicate StaysAlive(e: Exits, addr: nat) {
    0 < |e.addrs| == |e.alive| && NoDup(e.addrs) && IsAliveExit(e, addr)
  }

  ghost predicate NeverFails(readOk: nat -> seq<bool>) {
    Readable(readOk)
  }

  lemma FromThere(e: Exits, readOk: nat -> seq<bool>, addr: nat)
    requires StaysAlive(e, addr) && NeverFails(readOk)
    ensures 0 < |e.addrs| == |e.alive| && Readable(readOk) && forall k :: |readOk(k)| == 7
  {
    forall k
      ensures |readOk(k)| == 7
    {
      assert AllRead(readOk(k));
    }
  }

  lemma SentMore(out: seq<(nat, nat, seq<byte>)>, more: seq<(nat, nat, seq<byte>)>, to: nat, s: nat)
    ensures SentTo(out, to, s) || SentTo(more, to, s) ==> SentTo(out + more, to, s)
  {
    if k :| 0 <= k < |out| && out[k].0 == to && out[k].1 == s {
      assert (out + more)[k] == out[k];
    }
    if k :| 0 <= k < |more| && more[k].0 == to && more[k].1 == s {
      assert (out + more)[|out| + k] == more[k];
    }
  }

  lemma SentSince(start: seq<(nat, nat, seq<byte>)>, w: seq<(nat, nat, seq<byte>)>, w': seq<(nat, nat, seq<byte>)>, to: nat, s: nat)
    requires start <= w <= w'
    ensures start <= w' && (SentTo(w[|start|..], to, s) || SentTo(w'[|w|..], to, s) ==> SentTo(w'[|start|..], to, s))
  {
    hide SentTo;
    SentMore(w[|start|..], w'[|w|..], to, s);
    assert w'[|start|..] == w[|start|..] + w'[|w|..];
  }

  /** After one pass a number that waited for an alive exit still does, or went there. */
  lemma WaitsOrWent(file: seq<byte>, e: Exits, was: seq<nat>, dst: seq<nat>, now: seq<nat>, to: seq<nat>, s: nat, from: nat,
                    readOk: nat -> seq<bool>, out: seq<(nat, nat, seq<byte>)>, deferred: int)
    requires StaysAlive(e, from) && Readable(readOk) && (forall k :: |readOk(k)| == 7) && s < Total(|file|, TRANSFER_FRAGMENT_SIZE, true)
    requires NoDup(was) && |was| == |dst| && NoDup(now) && |now| == |to|
    requires s in Route(was, dst) && Route(was, dst)[s] == from
    requires RoutesKept(e, Route(was, dst), Route(now, to), deferred) && AllFates(file, e, was, dst, now, readOk, out)
    ensures (s in Route(now, to) && Route(now, to)[s] == from) || SentTo(out, from, s)
  {
    hide Total, Reread;
    var j :| 0 <= j < |was| && was[j] == s;
    if s !in now {
      OutsideAt(readOk, _ => 0, j);
      RereadIsAssigned(file, s, readOk(j));
      assert Fate(file, e, s, from, readOk(j), out);
    }
  }

  class OutOfWindowQueue {
    const queue: array<nat>
    const dst: array<nat>
    var count: nat
    var recent: Recent
    var lastRetxMs: nat
    /** Destination, number and payload of every packet the transport accepted from here. */
    ghost var wire: seq<(nat, nat, seq<byte>)>

    ghost predicate Valid()
      reads this, queue
    {
      && queue != dst && queue.Length == dst.Length == OOW_QUEUE_SIZE && count <= OOW_QUEUE_SIZE
      && RecentOk(recent) && NoDup(queue[..count])
    }

    constructor ()
      ensures Valid() && count == 0 && fresh(queue) && fresh(dst) && wire == []
    {
      queue := new nat[OOW_QUEUE_SIZE](_ => 0);
      dst := new nat[OOW_QUEUE_SIZE](_ => 0);
      count, lastRetxMs, wire := 0, 0, [];
      recent := Recent(seq(OOW_RECENT_SIZE, _ => 0), seq(OOW_RECENT_SIZE, _ => 0), 0);
    }

    /** A cloud NACK for a released number: queued once, unless it was re-sent just now. */
    method Request(s: nat, from: nat, now: nat)
      requires Valid()
      modifies this`count, queue, dst
      ensures Valid()
      ensures var was := old(queue[..count]);
              queue[..count] == if s in was || Suppressed(recent, s, now) || |was| == OOW_QUEUE_SIZE then was else was + [s]
      ensures var was := old(queue[..count]);
              Wanted() == if s !in was && (Suppressed(recent, s, now) || |was| == OOW_QUEUE_SIZE) then old(Wanted()) else old(Wanted())[s := from]
    {
      hide Route;
      ghost var was, dests := queue[..count], dst[..count];
      RouteMembers(was, dests);
      for i := 0 to count
        invariant s !in queue[..i]
      {
        if queue[i] == s {
          RouteSet(was, dests, i, from);
          dst[i] := from;
          assert dst[..count] == dests[i := from];
          return;
        }
      }
      for i := 0 to OOW_RECENT_SIZE
        invariant forall k :: 0 <= k < i ==> !(recent.ms[k] != 0 && recent.seqs[k] == s && now - recent.ms[k] < OOW_RECENT_SUPPRESS_MS)
      {
        if recent.ms[i] == 0 || recent.seqs[i] != s {
          continue;
        }
        if now - recent.ms[i] < OOW_RECENT_SUPPRESS_MS {
          return;
        }
      }
      if count < OOW_QUEUE_SIZE {
        RouteAppend(was, dests, s, from);
        queue[count], dst[count] := s, from;
        count := count + 1;
        assert queue[..count] == was + [s] && dst[..count] == dests + [from];
      }
    }

    method PayloadFor(file: seq<byte>, s: nat, readOk: seq<bool>) returns (data: seq<byte>)
      requires s < Total(|file|, TRANSFER_FRAGMENT_SIZE, true) && |readOk| == 7
      ensures data == Reread(file, s, readOk)
    {
      hide Total, Parity, Payload;
      if IsParity(s) {
        data := RegenerateParity(file, s, readOk);
      } else {
        DataIsInside(file, s);
        data := ReadFragment(file, DataIndex(s), readOk[0]);
      }
    }

    /** The requested exit if it is alive, else the first alive one. */
    method Destination(e: Exits, wanted: nat) returns (addr: nat)
      requires 0 < |e.addrs| == |e.alive|
      ensures Destined(e, wanted, addr)
    {
      addr := e.addrs[0];
      for i := 0 to |e.addrs|
        invariant forall k :: 0 <= k < i ==> e.addrs[k] != wanted
      {
        if e.addrs[i] == wanted {
          if e.alive[i] {
            return wanted;
          }
          break;
        }
      }
      for i := 0 to |e.alive|
        invariant forall k :: 0 <= k < i ==> !e.alive[k]
      {
        if e.alive[i] {
          return e.addrs[i];
        }
      }
    }

    /** Which exit requested each number of the queue. */
    ghost function Wanted(): map<nat, nat>
      requires Valid()
      reads this, queue, dst
    {
      Route(queue[..count], dst[..count])
    }

    /** Number s waits for the given exit. */
    ghost predicate Awaits(s: nat, from: nat)
      requires Valid()
      reads this, queue, dst
    {
      s in Wanted() && Wanted()[s] == from
    }

    lemma RequestAwaits(s: nat, from: nat)
      requires Valid() && s in Wanted() && Wanted()[s] == from
      ensures Awaits(s, from)
    {
    }

    /** The destinations of what waits. */
    ghost function Dests(kept: nat, i: nat): seq<nat>
      requires kept <= i <= count <= dst.Length
      reads this, dst
    {
      KeptAndRest(dst[..], kept, i, count)
    }

    /** The queue while it is being compacted: the kept prefix and the unread rest. */
    ghost function Waiting(kept: nat, i: nat): seq<nat>
      requires kept <= i <= count <= queue.Length
      reads this, queue
    {
      KeptAndRest(queue[..], kept, i, count)
    }

    method Keep(i: nat, kept: nat, to: nat)
      requires kept <= i < count <= queue.Length == dst.Length && queue != dst
      modifies queue, dst
      ensures Waiting(kept + 1, i + 1) == old(Waiting(kept, i))
      ensures kept < |old(Dests(kept, i))| && Dests(kept + 1, i + 1) == old(Dests(kept, i))[kept := to]
      ensures to == old(dst[i]) ==> Dests(kept + 1, i + 1) == old(Dests(kept, i))
      ensures queue[i + 1..count] == old(queue[i + 1..count]) && dst[i + 1..count] == old(dst[i + 1..count])
    {
      ghost var entries, dests := queue[..], dst[..];
      WaitingSteps(entries, kept, i, count);
      WaitingSteps(dests, kept, i, count);
      SlideAndSet(dests, kept, i, count, to);
      queue[kept] := queue[i];
      dst[kept] := to;
      assert queue[..] == entries[kept := entries[i]] && dst[..] == dests[kept := to];
    }

    method SendFn(to: nat, s: nat, data: seq<byte>, answer: int) returns (rc: int)
      modifies this`wire
      ensures rc == answer && wire == if answer >= 0 then old(wire) + [(to, s, data)] else old(wire)
    {
      if answer >= 0 {
        wire := wire + [(to, s, data)];
      }
      rc := answer;
    }

    method NoteSent(s: nat, now: nat)
      requires RecentOk(recent)
      modifies this`recent, this`lastRetxMs
      ensures RecentOk(recent) && lastRetxMs == now
      ensures now > 0 ==> Suppressed(recent, s, now)
    {
      ghost var w := recent.write;
      recent := Recent(recent.seqs[recent.write := s], recent.ms[recent.write := now], (recent.write + 1) % OOW_RECENT_SIZE);
      lastRetxMs := now;
      assert recent.ms[w] == now && recent.seqs[w] == s;
    }

    /** Tries to re-send entry i, to its exit if that is alive, else to an alive one. It leaves
        the queue exactly when the transport took it or not a single fragment of its group could
        be read; when its own read failed or the transport refused it, it stays. */
    method Resend(file: seq<byte>, e: Exits, i: nat, kept: nat, now: nat, readOk: seq<bool>, answer: int)
      returns (kept': nat, refused: bool, took: bool)
      requires queue.Length == dst.Length == OOW_QUEUE_SIZE && queue != dst && RecentOk(recent)
      requires kept <= i < count <= OOW_QUEUE_SIZE && 0 < |e.addrs| == |e.alive| && |readOk| == 7
      requires queue[i] < Total(|file|, TRANSFER_FRAGMENT_SIZE, true)
      modifies queue, dst, this`wire, this`recent, this`lastRetxMs
      ensures RecentOk(recent) && (kept' == kept || kept' == kept + 1)
      ensures var s := old(queue[i]); var data := Reread(file, s, readOk);
              && took == (data != [] && answer >= 0) && refused == (data != [] && answer < 0)
              && (kept' == kept <==> took || (data == [] && IsParity(s)))
              && (took ==> GoesTo(e, old(dst[i]), wire, old(wire), s, data) && lastRetxMs == now && (now > 0 ==> Suppressed(recent, s, now)))
              && (!took ==> wire == old(wire) && lastRetxMs == old(lastRetxMs))
      ensures kept < |old(Dests(kept, i))| && kept < |old(Waiting(kept, i))|
      ensures if kept' == kept then Dests(kept', i + 1) == RemoveAt(old(Dests(kept, i)), kept)
              else if refused then
                exists to :: Destined(e, old(dst[i]), to) && Dests(kept', i + 1) == old(Dests(kept, i))[kept := to]
              else Dests(kept', i + 1) == old(Dests(kept, i))
      ensures old(Dests(kept, i))[kept] == old(dst[i])
      ensures queue[i + 1..count] == old(queue[i + 1..count]) && dst[i + 1..count] == old(dst[i + 1..count])
      ensures Waiting(kept', i + 1) == if kept' == kept then RemoveAt(old(Waiting(kept, i)), kept) else old(Waiting(kept, i))
    {
      hide Total, Payload, KeptAndRest, Reread, Destined;
      refused, took := false, false;
      var s := queue[i];
      WaitingSteps(queue[..], kept, i, count);
      WaitingSteps(dst[..], kept, i, count);
      var data := PayloadFor(file, s, readOk);
      if |data| == 0 {
        if IsParity(s) {
          return kept, false, false;
        }
        Keep(i, kept, dst[i]);
        return kept + 1, false, false;
      }
      var to := Destination(e, dst[i]);
      var rc := SendFn(to, s, data, answer);
      if rc < 0 {
        Keep(i, kept, to);
        return kept + 1, true, false;
      }
      NoteSent(s, now);
      kept', took := kept, true;
    }

    /** In the middle of a pass over was, requested by dests: what still waits is what is left, on
        its old routes, what is gone met its fate, and entries from i on were not looked at. */
    ghost predicate Midway(file: seq<byte>, e: Exits, was: seq<nat>, dests: seq<nat>, i: nat, kept: nat, readOk: nat -> seq<bool>,
                           out: seq<(nat, nat, seq<byte>)>, deferred: int)
      requires forall k :: |readOk(k)| == 7
      reads this, queue, dst
    {
      && kept <= i <= count <= OOW_QUEUE_SIZE == queue.Length == dst.Length && |was| == |dests| == count && NoDup(was)
      && queue[i..count] == was[i..] && dst[i..count] == dests[i..] && |Waiting(kept, i)| == kept + count - i
      && LeftOf(file, was, Waiting(kept, i)) && RoutedSoFar(e, Route(was, dests), Waiting(kept, i), Dests(kept, i), deferred)
      && AllFates(file, e, was, dests, Waiting(kept, i), readOk, out)
      && (Readable(readOk) ==> Settled(file, was, Waiting(kept, i), wire, out))
    }

    lemma MidwayAtStart(file: seq<byte>, e: Exits, readOk: nat -> seq<bool>)
      requires Valid() && forall k :: |readOk(k)| == 7
      requires forall s :: s in queue[..count] ==> s < Total(|file|, TRANSFER_FRAGMENT_SIZE, true)
      ensures Midway(file, e, queue[..count], dst[..count], 0, 0, readOk, [], -1)
    {
      hide Total, Payload, KeptAndRest, Settled, LeftOf, AllFates, RoutedSoFar, Route, NoDup;
      WaitingEnds(queue[..], 0, count);
      WaitingEnds(dst[..], 0, count);
      LeftAtStart(file, queue[..count]);
      RoutesAtStart(e, queue[..count], dst[..count]);
      FatesNone(file, e, queue[..count], dst[..count], readOk);
      SettledNone(file, queue[..count], wire);
    }

    lemma MidwayAtEnd(file: seq<byte>, e: Exits, was: seq<nat>, dests: seq<nat>, kept: nat, readOk: nat -> seq<bool>,
                      out: seq<(nat, nat, seq<byte>)>, deferred: int)
      requires (forall k :: |readOk(k)| == 7) && Midway(file, e, was, dests, count, kept, readOk, out, deferred)
      ensures kept <= count <= queue.Length && kept <= dst.Length && |was| == |dests| && NoDup(was) && NoDup(queue[..kept])
      ensures Subsequence(queue[..kept], was) && RoutesKept(e, Route(was, dests), Route(queue[..kept], dst[..kept]), deferred)
      ensures AllFates(file, e, was, dests, queue[..kept], readOk, out)
      ensures Readable(readOk) ==> AllAssigned(file, out) && forall s :: s in was && s !in queue[..kept] ==> WasSent(file, wire, s)
    {
      hide Total, Payload, KeptAndRest, Settled, LeftOf, AllFates, RoutedSoFar, Route, RoutesKept, NoDup, Subsequence, WasSent, AllAssigned;
      WaitingEnds(queue[..], kept, count);
      WaitingEnds(dst[..], kept, count);
      RoutesAtEnd(e, Route(was, dests), Waiting(kept, count), Dests(kept, count), deferred);
      LeftAtEnd(file, was, Waiting(kept, count));
      if Readable(readOk) {
        WhatWasSettled(file, was, Waiting(kept, count), wire, out);
      }
    }

    /** Entry i stays, for its exit, without being tried. */
    method Pass(file: seq<byte>, e: Exits, i: nat, kept: nat, ghost readOk: nat -> seq<bool>,
                ghost was: seq<nat>, ghost dests: seq<nat>, ghost out: seq<(nat, nat, seq<byte>)>, ghost deferred: int)
      requires (forall k :: |readOk(k)| == 7) && Midway(file, e, was, dests, i, kept, readOk, out, deferred) && i < count && queue != dst
      modifies queue, dst
      ensures Midway(file, e, was, dests, i + 1, kept + 1, readOk, out, deferred)
    {
      hide Total, Payload, KeptAndRest, Settled, LeftOf, AllFates, RoutedSoFar, Route, NoDup, Readable;
      assert queue[i + 1..count] == queue[i..count][1..] && dst[i + 1..count] == dst[i..count][1..];
      Keep(i, kept, dst[i]);
    }

    /** Entry i is tried. */
    method Offer(file: seq<byte>, e: Exits, i: nat, kept: nat, now: nat, readOk: nat -> seq<bool>, answer: int,
                 ghost was: seq<nat>, ghost dests: seq<nat>, ghost out: seq<(nat, nat, seq<byte>)>)
      returns (kept': nat, refused: bool, took: bool, ghost out': seq<(nat, nat, seq<byte>)>, ghost deferred: int)
      requires (forall k :: |readOk(k)| == 7) && Midway(file, e, was, dests, i, kept, readOk, out, -1) && i < count
      requires queue != dst && RecentOk(recent) && 0 < |e.addrs| == |e.alive|
      modifies queue, dst, this`wire, this`recent, this`lastRetxMs
      ensures RecentOk(recent) && (kept' == kept || kept' == kept + 1) && (took ==> kept' == kept)
      ensures Midway(file, e, was, dests, i + 1, kept', readOk, out', deferred)
      ensures took ==> |wire| == |old(wire)| + 1 && out' == out + [wire[|old(wire)|]] && wire == old(wire) + [wire[|old(wire)|]]
      ensures if took then lastRetxMs == now else out' == out && wire == old(wire) && lastRetxMs == old(lastRetxMs)
      ensures if refused then deferred == was[i] && answer < 0 else deferred == -1
      ensures Readable(readOk) ==> (took <==> kept' == kept) && (answer >= 0 ==> took && !refused)
    {
      hide Total, Payload, KeptAndRest, Settled, LeftOf, Assigned, Subsequence, NoDup, Reread, Readable, IsAliveExit, Suppressed;
      hide Destined, Route, RoutesKept, RoutedSoFar, AllFates, Fate, RemoveAt;
      ghost var w, d, s, wire0 := Waiting(kept, i), Dests(kept, i), queue[i], wire;
      assert queue[i] == was[i..][0] == was[i] && dst[i] == dests[i..][0] == dests[i];
      assert queue[i + 1..count] == queue[i..count][1..] && dst[i + 1..count] == dst[i..count][1..];
      WaitingSteps(queue[..], kept, i, count);
      LeftAfter(file, was, w, kept);
      OutsideAt(readOk, _ => answer, i);
      if Readable(readOk) {
        RereadIsAssigned(file, s, readOk(i));
      }
      kept', refused, took := Resend(file, e, i, kept, now, readOk(i), answer);
      deferred := RouteStep(e, Route(was, dests), w, d, kept, Waiting(kept', i + 1), Dests(kept', i + 1), kept' == kept, refused, -1);
      if kept' == kept {
        EntryLeft(file, e, was, dests, w, kept, i, readOk, out, wire0, wire, took);
      }
      out' := out;
      if took {
        if Readable(readOk) {
          SettledNext(file, was, w, wire0, out, kept, wire[|wire0|]);
        }
        out' := out + [wire[|wire0|]];
      }
    }

    /** One pass over the queue at a tick: re-sends what pacing and budget allow and keeps the
        rest, in order. With all reads succeeding, a number leaves only because its own payload
        went out; a refused send ends the pass without losing anything. readOk and answers say
        what the outside does for each position of the queue. */
    method Drain(file: seq<byte>, e: Exits, hops: nat, now: nat, readOk: nat -> seq<bool>, answers: nat -> int)
      returns (sent: nat, ghost deferred: int)
      requires Valid() && 0 < |e.addrs| == |e.alive| && forall k :: |readOk(k)| == 7
      requires forall s :: s in queue[..count] ==> s < Total(|file|, TRANSFER_FRAGMENT_SIZE, true)
      modifies this`count, this`wire, this`recent, this`lastRetxMs, queue, dst
      ensures Valid() && sent <= Pace(old(count), hops).budget
      ensures Subsequence(queue[..count], old(queue[..count]))
      ensures old(wire) <= wire && |wire| == |old(wire)| + sent
      ensures now - old(lastRetxMs) < Pace(old(count), hops).intervalMs ==> sent == 0 && count == old(count)
      ensures lastRetxMs == if sent == 0 then old(lastRetxMs) else now
      ensures Readable(readOk) ==> AllAssigned(file, wire[|old(wire)|..]) && old(count) - count == sent
      ensures Readable(readOk) ==> forall s :: s in old(queue[..count]) && s !in queue[..count] ==> WasSent(file, wire, s)
      ensures RoutesKept(e, old(Wanted()), Wanted(), deferred)
      ensures deferred != -1 ==> exists j: nat :: j < old(count) && deferred == old(queue[j]) && answers(j) < 0
      ensures AllFates(file, e, old(queue[..count]), old(dst[..count]), queue[..count], readOk, wire[|old(wire)|..])
      ensures Readable(readOk) && Accepting(answers) && now - old(lastRetxMs) >= Pace(old(count), hops).intervalMs ==>
                sent == if old(count) < Pace(old(count), hops).budget then old(count) else Pace(old(count), hops).budget
    {
      hide Total, Payload, Assigned, Subsequence, NoDup, Reread, Readable, Accepting, IsAliveExit, Suppressed, Pace;
      hide Destined, Route, RoutesKept, AllFates, Fate, OutOfWindowQueue.Midway;
      var pace := Pace(count, hops);
      var allow := now - lastRetxMs >= pace.intervalMs;
      ghost var was, dests, out := queue[..count], dst[..count], [];
      var i: nat, kept: nat, refused := 0, 0, false;
      sent := 0;
      deferred := -1;
      MidwayAtStart(file, e, readOk);
      while i < count
        invariant kept <= i <= count == |was| && RecentOk(recent) && Midway(file, e, was, dests, i, kept, readOk, out, deferred)
        invariant sent <= pace.budget && kept <= i - sent && (!allow ==> sent == 0 && kept == i)
        invariant wire == old(wire) + out && |out| == sent && lastRetxMs == if sent == 0 then old(lastRetxMs) else now
        invariant (refused <==> deferred != -1) && (refused ==> exists j: nat :: j < i && deferred == was[j] && answers(j) < 0)
        invariant Readable(readOk) ==> i - kept == sent
        invariant Readable(readOk) && Accepting(answers) && allow ==>
                    !refused && sent == if i < pace.budget then i else pace.budget
      {
        if !allow || sent >= pace.budget || refused {
          Pass(file, e, i, kept, readOk, was, dests, out, deferred);
          kept := kept + 1;
        } else {
          var kept', took;
          OutsideAt(readOk, answers, i);
          kept', refused, took, out, deferred := Offer(file, e, i, kept, now, readOk, answers(i), was, dests, out);
          if took {
            sent := sent + 1;
          }
          kept := kept';
        }
        i := i + 1;
      }
      MidwayAtEnd(file, e, was, dests, kept, readOk, out, deferred);
      count := kept;
    }

    /** One pass over a number that waits for an alive exit. */
    method OnePass(file: seq<byte>, s: nat, from: nat, e: Exits, hops: nat, now: nat, readOk: nat -> seq<bool>, answers: nat -> int)
      requires Valid() && s < Total(|file|, TRANSFER_FRAGMENT_SIZE, true) && StaysAlive(e, from) && NeverFails(readOk)
      requires forall x :: x in queue[..count] ==> x < Total(|file|, TRANSFER_FRAGMENT_SIZE, true)
      modifies this`count, this`wire, this`recent, this`lastRetxMs, queue, dst
      ensures Valid() && old(wire) <= wire
      ensures forall x :: x in queue[..count] ==> x < Total(|file|, TRANSFER_FRAGMENT_SIZE, true)
      ensures old(Awaits(s, from)) ==> Awaits(s, from) || SentTo(wire[|old(wire)|..], from, s)
    {
      hide Total, Suppressed, AllFates, Fate, RoutesKept, Route, NoDup, Subsequence, WasSent, AllAssigned, StaysAlive, NeverFails;
      hide Readable, Accepting, SentTo, Pace, RecentOk;
      ghost var w, was, dests := wire, queue[..count], dst[..count];
      FromThere(e, readOk, from);
      var sent, deferred := Drain(file, e, hops, now, readOk, answers);
      SubsequenceMembers(queue[..count], was);
      if old(Awaits(s, from)) {
        WaitsOrWent(file, e, was, dests, queue[..count], dst[..count], s, from, readOk, wire[|w|..], deferred);
      }
    }

    /** However many passes a number waits: while the exit that requested it stays alive and the
        file can be read, it waits for that exit until it goes out to that exit. */
    method RequestedAndWaiting(file: seq<byte>, s: nat, from: nat, asked: nat, passes: nat, exits: nat -> Exits, hops: nat, times: nat -> nat,
                               readOk: nat -> nat -> seq<bool>, answers: nat -> nat -> int)
      requires Valid() && count < OOW_QUEUE_SIZE && !Suppressed(recent, s, asked) && s < Total(|file|, TRANSFER_FRAGMENT_SIZE, true)
      requires forall x :: x in queue[..count] ==> x < Total(|file|, TRANSFER_FRAGMENT_SIZE, true)
      requires forall p :: StaysAlive(exits(p), from) && NeverFails(readOk(p))
      modifies this`count, this`wire, this`recent, this`lastRetxMs, queue, dst
      ensures Valid() && old(wire) <= wire
      ensures Awaits(s, from) || SentTo(wire[|old(wire)|..], from, s)
    {
      hide Total, Suppressed, Route, NoDup, StaysAlive, NeverFails, SentTo, RecentOk, OutOfWindowQueue.Awaits;
      Request(s, from, asked);
      RequestAwaits(s, from);
      ghost var start := wire;
      for p := 0 to passes
        invariant Valid() && start <= wire
        invariant forall x :: x in queue[..count] ==> x < Total(|file|, TRANSFER_FRAGMENT_SIZE, true)
        invariant Awaits(s, from) || SentTo(wire[|start|..], from, s)
      {
        ghost var w := wire;
        assert StaysAlive(exits(p), from) && NeverFails(readOk(p));
        OnePass(file, s, from, exits(p), hops, times(p), readOk(p), answers(p));
        SentSince(start, w, wire, from, s);
      }
    }
  }
}
