/** The transfer path of a node that is its own exit: a sliding window of fragments handed to
    the local MQTT client, driven by cloud ACKs and NACKs. There is no parity on this path. */
module LocalExit {
  import opened Bytes
  import opened Layout
  import opened Queues
  import opened Outside
  import Bitmap

  const CLOUD_WINDOW_SIZE := 16
  const CLOUD_RETX_QUEUE_SIZE := 16
  const MAX_CLOUD_FRAGMENTS := 8192

  /** The entries of q that are not acknowledged, in order. */
  function Unacked(q: seq<nat>, acked: set<nat>): seq<nat> {
    if q == [] then []
    else Unacked(q[..|q| - 1], acked) + if q[|q| - 1] in acked then [] else [q[|q| - 1]]
  }

  function Skip(q: seq<nat>, n: nat): seq<nat> {
    if |q| <= n then [] else q[n..]
  }

  /** One NACK: queued once, unless it is out of range, acknowledged or there is no room. */
  function QueueNack(q: seq<nat>, acked: set<nat>, count: nat, s: nat): seq<nat> {
    if s >= count || s in acked || s in q || |q| >= CLOUD_RETX_QUEUE_SIZE then q else q + [s]
  }

  function QueueNacks(q: seq<nat>, acked: set<nat>, count: nat, nacks: seq<nat>): seq<nat> {
    if nacks == [] then q
    else QueueNack(QueueNacks(q, acked, count, nacks[..|nacks| - 1]), acked, count, nacks[|nacks| - 1])
  }

  function InRange(acks: seq<nat>, count: nat): set<nat> {
    set s | s in acks && s < count
  }

  /** base is the least number not acknowledged, or the end. */
  ghost predicate IsBase(base: nat, acked: set<nat>, count: nat) {
    base <= count && (forall s: nat :: s < base ==> s in acked) && (base < count ==> base !in acked)
  }

  lemma {:induction false} UnackedMembers(q: seq<nat>, acked: set<nat>)
    ensures forall s :: s in Unacked(q, acked) <==> s in q && s !in acked
    ensures NoDup(q) ==> NoDup(Unacked(q, acked))
    ensures |Unacked(q, acked)| <= |q|
  {
    if q != [] {
      var n := |q| - 1;
      assert q == q[..n] + [q[n]];
      UnackedMembers(q[..n], acked);
    }
  }

  /** What the send loop saw is a prefix of all that is due. */
  lemma {:induction false} UnackedPrefix(q: seq<nat>, acked: set<nat>, i: nat)
    requires i <= |q|
    ensures Unacked(q[..i], acked) <= Unacked(q, acked)
  {
    if i < |q| {
      var n := |q| - 1;
      UnackedPrefix(q[..n], acked, i);
      assert q[..n][..i] == q[..i];
    } else {
      assert q[..i] == q;
    }
  }

  lemma {:induction false} QueuedStaysClean(q: seq<nat>, acked: set<nat>, count: nat, nacks: seq<nat>)
    requires NoDup(q) && |q| <= CLOUD_RETX_QUEUE_SIZE && forall s :: s in q ==> s < count
    ensures var r := QueueNacks(q, acked, count, nacks);
            && NoDup(r) && q <= r && |r| <= CLOUD_RETX_QUEUE_SIZE
            && (forall s :: s in r ==> s < count)
            && (forall s :: s in r && s !in q ==> s in nacks && s !in acked)
            && (|r| < CLOUD_RETX_QUEUE_SIZE ==> forall s :: s in nacks && s < count && s !in acked ==> s in r)
  {
    if nacks != [] {
      var n := |nacks| - 1;
      assert nacks == nacks[..n] + [nacks[n]];
      QueuedStaysClean(q, acked, count, nacks[..n]);
    }
  }

  /** The window is in order exactly as long as not everything up to the next number is
      acknowledged; in particular if only sent numbers are. */
  lemma WindowInOrderIff(base: nat, next: nat, acked: set<nat>, count: nat)
    requires IsBase(base, acked, count) && next < count
    ensures base <= next <==> exists s: nat :: s <= next && s !in acked
    ensures (forall s :: s in acked ==> s < next) ==> base <= next
  {
    if base <= next {
      assert base !in acked;
    }
    if forall s :: s in acked ==> s < next {
      assert next !in acked;
    }
  }

  lemma UnackedStep(q: seq<nat>, acked: set<nat>, i: nat)
    requires i < |q|
    ensures Unacked(q[..i + 1], acked) == Unacked(q[..i], acked) + if q[i] in acked then [] else [q[i]]
  {
    assert q[..i + 1][..i] == q[..i];
  }

  lemma SkipStep(q: seq<nat>, x: nat, n: nat)
    ensures Skip(q + [x], n) == if |q| < n then [] else Skip(q, n) + [x]
    ensures |q| <= n ==> Skip(q, n) == []
  {
  }

  class LocalExitArq {
    const file: seq<byte>
    const count: nat
    const bitmap: array<byte>
    const retxQueue: array<nat>
    var retxCount: nat
    var base: nat
    var nextSend: nat
    ghost var acked: set<nat>
    /** What the local MQTT client took, in order, with the number it was handed over under. */
    ghost var wire: seq<(nat, seq<byte>)>

    ghost predicate Valid()
      reads this, bitmap, retxQueue
    {
      && count == Total(|file|, TRANSFER_FRAGMENT_SIZE, false) <= MAX_CLOUD_FRAGMENTS
      && bitmap.Length == (MAX_CLOUD_FRAGMENTS + 7) / 8
      && Bitmap.Tracks(bitmap[..], count, acked)
      && retxQueue.Length == CLOUD_RETX_QUEUE_SIZE && retxCount <= CLOUD_RETX_QUEUE_SIZE
      && NoDup(Queue()) && (forall s :: s in Queue() ==> s < count)
      && base <= count && (forall s: nat :: s < base ==> s in acked)
      && nextSend <= count && nextSend <= base + CLOUD_WINDOW_SIZE
      && Faithful(file, wire)
    }

    ghost function Queue(): seq<nat>
      requires retxCount <= retxQueue.Length
      reads this, retxQueue
    {
      retxQueue[..retxCount]
    }

    constructor (file: seq<byte>)
      requires |file| <= SD_MAX_FILE_SIZE
      ensures Valid() && this.file == file && base == nextSend == retxCount == 0 && acked == {} && wire == []
      ensures fresh(bitmap) && fresh(retxQueue)
    {
      this.file, count := file, DataFragments(|file|, TRANSFER_FRAGMENT_SIZE);
      bitmap := new byte[(MAX_CLOUD_FRAGMENTS + 7) / 8](_ => 0);
      retxQueue := new nat[CLOUD_RETX_QUEUE_SIZE](_ => 0);
      retxCount, base, nextSend, acked, wire := 0, 0, 0, {}, [];
      new;
      CountFits(|file|);
      Bitmap.ZeroTracks(bitmap[..], count);
    }

    method DrainAcks(acks: seq<nat>)
      requires Valid()
      modifies this`acked, bitmap
      ensures Valid() && acked == old(acked) + InRange(acks, count)
    {
      for i := 0 to |acks|
        invariant Valid() && acked == old(acked) + InRange(acks[..i], count)
      {
        var s := acks[i];
        assert acks[..i + 1] == acks[..i] + [s];
        if s < count {
          Bitmap.Set(bitmap, s, count, acked);
          acked := acked + {s};
        }
        assert InRange(acks[..i + 1], count) == InRange(acks[..i], count) + if s < count then {s} else {};
      }
      assert acks[..|acks|] == acks;
    }

    method AdvanceBase()
      requires Valid()
      modifies this`base
      ensures Valid() && old(base) <= base && IsBase(base, acked, count)
    {
      while base < count
        invariant Valid() && old(base) <= base <= count
      {
        var done := Bitmap.Test(bitmap, base, count, acked);
        if !done {
          break;
        }
        base := base + 1;
      }
    }

    method DrainNacks(nacks: seq<nat>)
      requires Valid()
      modifies this`retxCount, retxQueue
      ensures Valid() && Queue() == QueueNacks(old(Queue()), acked, count, nacks)
    {
      ghost var was := Queue();
      for i := 0 to |nacks|
        invariant Valid() && Queue() == QueueNacks(was, acked, count, nacks[..i])
      {
        ghost var q := Queue();
        var s := nacks[i];
        assert nacks[..i + 1][..i] == nacks[..i];
        if s >= count {
          continue;
        }
        var done := Bitmap.Test(bitmap, s, count, acked);
        if done {
          continue;
        }
        var queued := Queued(s);
        if !queued && retxCount < CLOUD_RETX_QUEUE_SIZE {
          retxQueue[retxCount] := s;
          retxCount := retxCount + 1;
          assert Queue() == q + [s];
        }
      }
      assert nacks[..|nacks|] == nacks;
    }

    method Queued(s: nat) returns (queued: bool)
      requires retxCount <= retxQueue.Length
      ensures queued <==> s in Queue()
    {
      for i := 0 to retxCount
        invariant s !in retxQueue[..i]
      {
        if retxQueue[i] == s {
          return true;
        }
      }
      queued := false;
    }

    /** Hands fragment s to the local MQTT client, which refuses empty data. */
    method Forward(s: nat, out: Outcome) returns (ok: bool)
      requires Valid() && s < count
      modifies this`wire
      ensures Valid() && ok == out.Ok()
      ensures wire == if ok then old(wire) + [(s, Chunk(file, TRANSFER_FRAGMENT_SIZE, s))] else old(wire)
    {
      ChunkShape(file, TRANSFER_FRAGMENT_SIZE, s);
      var got := ReadFragment(file, s, out.readOk);
      if |got| == 0 || out.answer < 0 {
        return false;
      }
      wire := wire + [(s, got)];
      ok := true;
    }

    /** Re-sends what is queued and not acknowledged, in order, until a hand-over fails. */
    method SendRetx(outs: nat -> Outcome) returns (sent: nat)
      requires Valid()
      modifies this`wire
      ensures Valid() && sent <= |Unacked(Queue(), acked)| && sent <= CLOUD_WINDOW_SIZE
      ensures wire == old(wire) + Packets(file, Unacked(Queue(), acked)[..sent])
      ensures Succeed(outs, sent) && (sent == CLOUD_WINDOW_SIZE || sent == |Unacked(Queue(), acked)| || !outs(sent).Ok())
    {
      hide Bitmap.Tracks, NoDup, Faithful, Chunk, Unacked, Packets, Succeed;
      sent := 0;
      ghost var q := Queue();
      ghost var seen := Unacked(q[..0], acked);
      NoPackets(file);
      NothingSeen(q, acked, 0);
      SucceedNext(outs, 0);
      var i := 0;
      while i < retxCount && sent < CLOUD_WINDOW_SIZE
        invariant Valid() && i <= retxCount && Succeed(outs, sent)
        invariant seen == Unacked(q[..i], acked) && sent == |seen| <= CLOUD_WINDOW_SIZE
        invariant wire == old(wire) + Packets(file, seen)
      {
        var s := retxQueue[i];
        assert q[i] == s && s in q;
        UnackedStep(q, acked, i);
        SucceedNext(outs, sent);
        var done := Bitmap.Test(bitmap, s, count, acked);
        if !done {
          var ok := Forward(s, outs(sent));
          if !ok {
            break;
          }
          OneMorePacket(file, seen, s);
          seen := seen + [s];
          sent := sent + 1;
        } else {
          assert seen + [] == seen;
        }
        i := i + 1;
      }
      UnackedPrefix(q, acked, i);
      assert q[..|q|] == q;
      assert seen == Unacked(Queue(), acked)[..sent];
    }

    /** Compaction sees only how many were re-sent, yet drops exactly the acknowledged entries
        and those that SendRetx just re-sent. */
    method CompactRetxQueue(sent: nat)
      requires Valid() && sent <= |Unacked(Queue(), acked)|
      modifies this`retxCount, retxQueue
      ensures Valid() && Queue() == Unacked(old(Queue()), acked)[sent..]
    {
      hide Bitmap.Tracks, NoDup, Faithful, Unacked, Skip;
      ghost var q := Queue();
      ghost var due := Unacked(q, acked);
      ghost var seen := Unacked(q[..0], acked);
      NothingSeen(q, acked, sent);
      var kept, skip := 0, 0;
      for i := 0 to retxCount
        invariant kept <= i && retxCount == |q|
        invariant seen == Unacked(q[..i], acked) && skip == if |seen| <= sent then |seen| else sent
        invariant retxQueue[..kept] == Skip(seen, sent)
        invariant forall k :: i <= k < retxCount ==> retxQueue[k] == q[k]
      {
        var s := retxQueue[i];
        assert q[i] in q;
        UnackedStep(q, acked, i);
        SkipStep(seen, s, sent);
        var done := Bitmap.Test(bitmap, s, count, acked);
        if done {
          assert seen + [] == seen;
          continue;
        }
        seen := seen + [s];
        if skip < sent {
          skip := skip + 1;
          continue;
        }
        retxQueue[kept] := s;
        assert retxQueue[..kept + 1] == retxQueue[..kept] + [s];
        kept := kept + 1;
      }
      assert q[..|q|] == q;
      UnackedMembers(q, acked);
      SuffixClean(due, sent);
      retxCount := kept;
    }

    /** New fragments, one after the other, while window and budget allow and none fails. */
    method SendNew(already: nat, outs: nat -> Outcome) returns (sent: nat)
      requires Valid() && already <= CLOUD_WINDOW_SIZE
      modifies this`nextSend, this`wire
      ensures Valid() && already <= sent <= CLOUD_WINDOW_SIZE
      ensures nextSend == old(nextSend) + (sent - already)
      ensures wire == old(wire) + NewPackets(file, old(nextSend), nextSend)
      ensures Succeed(outs, sent - already)
      ensures sent == CLOUD_WINDOW_SIZE || nextSend == count || nextSend == base + CLOUD_WINDOW_SIZE || !outs(sent - already).Ok()
    {
      hide Bitmap.Tracks, NoDup, Faithful, Chunk, Succeed;
      sent := already;
      SucceedNext(outs, 0);
      var windowEnd := base + CLOUD_WINDOW_SIZE;
      while nextSend < count && nextSend < windowEnd && sent < CLOUD_WINDOW_SIZE
        invariant Valid() && old(nextSend) <= nextSend && nextSend == old(nextSend) + (sent - already)
        invariant sent <= CLOUD_WINDOW_SIZE && Succeed(outs, sent - already)
        invariant wire == old(wire) + NewPackets(file, old(nextSend), nextSend)
      {
        SucceedNext(outs, sent - already);
        var ok := Forward(nextSend, outs(sent - already));
        if !ok {
          break;
        }
        OneMoreNew(file, old(nextSend), nextSend);
        nextSend := nextSend + 1;
        sent := sent + 1;
      }
    }

    /** One tick. The base is the least number not acknowledged, retransmissions go before new
        fragments, at most sixteen fragments leave, and the transfer is done exactly when the
        cloud has acknowledged everything. Only a failed hand-over keeps it from re-sending all
        that is due or from filling window and budget. */
    method Tick(acks: seq<nat>, nacks: seq<nat>, retxOuts: nat -> Outcome, newOuts: nat -> Outcome) returns (complete: bool)
      requires Valid()
      modifies this, bitmap, retxQueue
      ensures Valid() && acked == old(acked) + InRange(acks, count) && IsBase(base, acked, count)
      ensures base >= old(base) && nextSend >= old(nextSend)
      ensures var due := Unacked(QueueNacks(old(Queue()), acked, count, nacks), acked);
              exists resent: nat :: resent <= |due| && resent + (nextSend - old(nextSend)) <= CLOUD_WINDOW_SIZE
                && (resent == |due| || resent == CLOUD_WINDOW_SIZE || !retxOuts(resent).Ok())
                && (resent + (nextSend - old(nextSend)) == CLOUD_WINDOW_SIZE || nextSend == count || nextSend == base + CLOUD_WINDOW_SIZE
                    || !newOuts(nextSend - old(nextSend)).Ok())
                && Succeed(retxOuts, resent) && Succeed(newOuts, nextSend - old(nextSend))
                && Queue() == due[resent..]
                && wire == old(wire) + Packets(file, due[..resent]) + NewPackets(file, old(nextSend), nextSend)
      ensures nextSend < count ==> (base <= nextSend <==> exists s: nat :: s <= nextSend && s !in acked)
      ensures complete <==> forall s: nat :: s < count ==> s in acked
    {
      hide Bitmap.Tracks, NoDup, Faithful, Chunk, Unacked, QueueNacks, Packets, NewPackets, Succeed;
      DrainAcks(acks);
      AdvanceBase();
      DrainNacks(nacks);
      ghost var due := Unacked(Queue(), acked);
      var resent := SendRetx(retxOuts);
      CompactRetxQueue(resent);
      assert Queue() == due[resent..];
      var sent := SendNew(resent, newOuts);
      complete := base >= count;
      if nextSend < count {
        WindowInOrderIff(base, nextSend, acked, count);
      }
    }
  }

  /** The first n hand-overs succeed. */
  ghost predicate Succeed(outs: nat -> Outcome, n: nat) {
    forall k :: 0 <= k < n ==> outs(k).Ok()
  }

  lemma SucceedNext(outs: nat -> Outcome, n: nat)
    ensures Succeed(outs, 0)
    ensures Succeed(outs, n) && outs(n).Ok() ==> Succeed(outs, n + 1)
  {
  }

  /** Everything handed over carries the fragment that its number stands for. */
  ghost predicate Faithful(file: seq<byte>, wire: seq<(nat, seq<byte>)>) {
    forall p :: p in wire ==> p.1 == Payload(file, TRANSFER_FRAGMENT_SIZE, false, p.0)
  }

  ghost function Packets(file: seq<byte>, q: seq<nat>): seq<(nat, seq<byte>)> {
    seq(|q|, k requires 0 <= k < |q| => (q[k], Chunk(file, TRANSFER_FRAGMENT_SIZE, q[k])))
  }

  ghost function NewPackets(file: seq<byte>, from: nat, to: nat): seq<(nat, seq<byte>)>
    requires from <= to
  {
    if from == to then [] else NewPackets(file, from, to - 1) + [(to - 1, Chunk(file, TRANSFER_FRAGMENT_SIZE, to - 1))]
  }

  lemma NoPackets(file: seq<byte>)
    ensures Packets(file, []) == []
  {
  }

  lemma OneMorePacket(file: seq<byte>, q: seq<nat>, s: nat)
    ensures Packets(file, q + [s]) == Packets(file, q) + [(s, Chunk(file, TRANSFER_FRAGMENT_SIZE, s))]
  {
    hide Chunk;
  }

  lemma OneMoreNew(file: seq<byte>, from: nat, to: nat)
    requires from <= to
    ensures NewPackets(file, from, to + 1) == NewPackets(file, from, to) + [(to, Chunk(file, TRANSFER_FRAGMENT_SIZE, to))]
  {
    hide Chunk;
  }

  lemma NothingSeen(q: seq<nat>, acked: set<nat>, n: nat)
    ensures Unacked(q[..0], acked) == [] && Skip([], n) == []
  {
  }

  lemma SuffixClean(q: seq<nat>, n: nat)
    requires NoDup(q) && n <= |q|
    ensures NoDup(q[n..]) && forall s :: s in q[n..] ==> s in q
    ensures Skip(q, n) == q[n..]
  {
  }

  lemma CountFits(size: nat)
    requires size <= SD_MAX_FILE_SIZE
    ensures DataFragments(size, TRANSFER_FRAGMENT_SIZE) <= MAX_CLOUD_FRAGMENTS
  {
  }
}
