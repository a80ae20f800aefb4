/** The neighbor table on its way to the cloud: the firmware's serializer and the cloud
    service's decoder. Bytes are numbers below 256 here. */
module Topology {
  import opened Octets
  import opened Routing

  const ENTRY_SIZE := 7

  /** What the cloud keeps of a neighbor. */
  datatype Neighbor = Neighbor(addr: nat, rssi: int, hops: nat, hopsInet: nat, espnow: bool, lora: bool, inet: bool, load: nat)

  function Reported(e: Entry): Neighbor {
    Neighbor(e.addr, e.rssi, e.hops, e.hopsInet, e.espnow, e.lora, e.inet, e.load)
  }

  function ReportedAll(es: seq<Entry>): (r: seq<Neighbor>)
    ensures |r| == |es| && forall i :: 0 <= i < |es| ==> r[i] == Reported(es[i])
  {
    seq(|es|, i requires 0 <= i < |es| => Reported(es[i]))
  }

  /** The two's complement byte of a signed one, and back. */
  function FromSigned(x: int): octet
    requires -128 <= x < 128
  {
    if x < 0 then x + 0x100 else x
  }

  function ToSigned(b: octet): int {
    if b < 0x80 then b else b - 0x100
  }

  function Flags(e: Entry): octet {
    (if e.espnow then 1 else 0) + (if e.lora then 2 else 0) + (if e.inet then 4 else 0)
  }

  /** flags & (1 << bit) != 0 */
  predicate Flag(flags: octet, bit: nat)
    requires bit < 3
  {
    flags / (if bit == 0 then 1 else if bit == 1 then 2 else 4) % 2 == 1
  }

  function EntryBytes(e: Entry): (r: seq<octet>)
    requires EntryOk(e)
    ensures |r| == ENTRY_SIZE
  {
    [Low(e.addr), High(e.addr), FromSigned(e.rssi), e.hops, e.hopsInet, Flags(e), e.load]
  }

  /** The cloud's reading of the seven bytes of an entry. */
  function NeighborOf(q: seq<octet>): Neighbor
    requires |q| == ENTRY_SIZE
  {
    Neighbor(q[0] as int + q[1] as int * 0x100, ToSigned(q[2]), q[3], q[4], Flag(q[5], 0), Flag(q[5], 1), Flag(q[5], 2), q[6])
  }

  function NeighborAt(p: seq<octet>, off: nat): Neighbor
    requires off + ENTRY_SIZE <= |p|
  {
    NeighborOf(p[off..off + ENTRY_SIZE])
  }

  function Table(es: seq<Entry>): (r: seq<octet>)
    requires forall e :: e in es ==> EntryOk(e)
    ensures |r| == ENTRY_SIZE * |es|
  {
    if es == [] then [] else Table(es[..|es| - 1]) + EntryBytes(es[|es| - 1])
  }

  lemma EntryRoundTrip(e: Entry)
    requires EntryOk(e)
    ensures NeighborOf(EntryBytes(e)) == Reported(e)
  {
    assert Low(e.addr) as int + High(e.addr) as int * 0x100 == e.addr;
    assert ToSigned(FromSigned(e.rssi)) == e.rssi;
  }

  lemma {:induction false} EntryWithin(es: seq<Entry>, i: nat)
    requires (forall e :: e in es ==> EntryOk(e)) && i < |es|
    ensures Table(es)[ENTRY_SIZE * i..ENTRY_SIZE * i + ENTRY_SIZE] == EntryBytes(es[i])
  {
    var n := |es| - 1;
    if i < n {
      EntryWithin(es[..n], i);
      assert Table(es)[..ENTRY_SIZE * n] == Table(es[..n]);
      assert Table(es)[ENTRY_SIZE * i..ENTRY_SIZE * i + ENTRY_SIZE] ==
             Table(es[..n])[ENTRY_SIZE * i..ENTRY_SIZE * i + ENTRY_SIZE];
    }
  }

  /** Writes the table, or nothing if the buffer is too small. */
  method Serialize(es: seq<Entry>, maxLen: nat) returns (p: seq<octet>)
    requires |es| <= MAX_NEIGHBORS && forall e :: e in es ==> EntryOk(e)
    ensures p == if 1 + ENTRY_SIZE * |es| > maxLen then [] else [|es|] + Table(es)
  {
    var needed := 1 + |es| * ENTRY_SIZE;
    if needed > maxLen {
      return [];
    }
    var n: octet := |es|;
    p := [n];
    for i := 0 to |es|
      invariant p == [n] + Table(es[..i])
    {
      assert es[..i + 1][..i] == es[..i];
      p := p + EntryBytes(es[i]);
    }
    assert es[..|es|] == es;
  }

  datatype NodeState = NodeState(lastSeen: nat, neighbors: seq<Neighbor>, heap: seq<nat>)

  /** The entries a payload announces and holds completely. */
  function Complete(p: seq<octet>): nat
    requires |p| >= 1
  {
    var held := (|p| - 1) / 7;
    if p[0] < held then p[0] else held
  }

  class Aggregator {
    var nodes: map<string, NodeState>

    constructor ()
      ensures nodes == map[]
    {
      nodes := map[];
    }

    /** Records a node's report: the announced entries as far as the payload reaches. The heap
        snapshot survives, other nodes are not touched, an empty payload is ignored. */
    method Update(id: string, p: seq<octet>, now: nat)
      modifies this
      ensures |p| < 1 ==> nodes == old(nodes)
      ensures |p| >= 1 ==>
                && id in nodes && nodes == old(nodes)[id := nodes[id]]
                && nodes[id].lastSeen == now
                && nodes[id].heap == (if id in old(nodes) then old(nodes)[id].heap else [])
                && |nodes[id].neighbors| == Complete(p)
                && forall i :: 0 <= i < Complete(p) ==> nodes[id].neighbors[i] == NeighborAt(p, 1 + 7 * i)
    {
      if |p| < 1 {
        return;
      }
      var count := p[0];
      var neighbors := [];
      var i := 0;
      while i < count
        invariant i <= count && |neighbors| == i <= Complete(p)
        invariant forall k :: 0 <= k < i ==> neighbors[k] == NeighborAt(p, 1 + 7 * k)
      {
        var off := 1 + i * 7;
        if off + 7 > |p| {
          break;
        }
        neighbors := neighbors + [NeighborAt(p, off)];
        i := i + 1;
      }
      var heap := if id in nodes then nodes[id].heap else [];
      nodes := nodes[id := NodeState(now, neighbors, heap)];
    }
  }

  /** The cloud's decoder inverts the firmware's serializer on every transmitted field. */
  method Report(es: seq<Entry>, maxLen: nat, cloud: Aggregator, id: string, now: nat)
    requires |es| <= MAX_NEIGHBORS && forall e :: e in es ==> EntryOk(e)
    modifies cloud
    ensures if 1 + ENTRY_SIZE * |es| > maxLen then cloud.nodes == old(cloud.nodes)
            else id in cloud.nodes && cloud.nodes[id].neighbors == ReportedAll(es)
  {
    var p := Serialize(es, maxLen);
    if |p| > 0 {
      DecodesToReported(es, p);
    }
    cloud.Update(id, p, now);
  }

  lemma DecodesToReported(es: seq<Entry>, p: seq<octet>)
    requires |es| <= MAX_NEIGHBORS && forall e :: e in es ==> EntryOk(e)
    requires p == [|es|] + Table(es)
    ensures Complete(p) == |es|
    ensures forall i :: 0 <= i < |es| ==> NeighborAt(p, 1 + 7 * i) == Reported(es[i])
  {
    hide Table, NeighborOf, Reported, EntryBytes, EntryOk;
    forall i | 0 <= i < |es|
      ensures NeighborAt(p, 1 + 7 * i) == Reported(es[i])
    {
      EntryWithin(es, i);
      AfterHead(p[0], Table(es), 7 * i);
      EntryRoundTrip(es[i]);
    }
  }

  lemma AfterHead(n: octet, t: seq<octet>, k: nat)
    requires k + ENTRY_SIZE <= |t|
    ensures ([n] + t)[1 + k..1 + k + ENTRY_SIZE] == t[k..k + ENTRY_SIZE]
  {
  }
}
