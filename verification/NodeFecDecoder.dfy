/** The firmware's own FEC decoder, which has memory for two groups only. */
module NodeFecDecoding {
  import opened Bytes
  import opened Layout
  import opened Assembly
  import opened FecDecoding
  import opened Reassembly

  datatype NodeGroup = NodeGroup(slots: seq<FecSlot>, count: nat, current: nat, active: bool)

  const FreeGroup := NodeGroup(EmptyGroup.slots, 0, 0, false)

  datatype Result = Result(missing: int, group: nat, len: nat, recovered: bool)

  /** What a slot of group g holds was delivered and is genuine. */
  ghost predicate SlotOk(file: seq<byte>, cs: nat, delivered: set<nat>, g: NodeGroup, i: nat)
    requires cs > 0 && i < |g.slots|
  {
    if g.slots[i].present then
      && g.current * 8 + i in delivered && g.current * 8 + i < Total(|file|, cs, true)
      && Genuine(file, cs, g.current * 8 + i, g.slots[i].data)
      && g.slots[i].isParity == (i == 7)
    else g.slots[i].data == []
  }

  ghost predicate GroupOk(file: seq<byte>, cs: nat, delivered: set<nat>, g: NodeGroup)
    requires cs > 0
  {
    && |g.slots| == 8 && g.count == PresentCount(g.slots, 8)
    && forall i: nat :: i < 8 ==> SlotOk(file, cs, delivered, g, i)
  }

  lemma DeliveredMore(file: seq<byte>, cs: nat, delivered: set<nat>, s: nat, g: NodeGroup)
    requires cs > 0 && GroupOk(file, cs, delivered, g)
    ensures GroupOk(file, cs, delivered + {s}, g)
  {
    hide Genuine;
    forall i: nat | i < 8
      ensures SlotOk(file, cs, delivered + {s}, g, i)
    {
      assert SlotOk(file, cs, delivered, g, i);
    }
  }

  lemma FreeIsOk(file: seq<byte>, cs: nat, delivered: set<nat>, current: nat)
    requires cs > 0
    ensures GroupOk(file, cs, delivered, FreeGroup.(current := current, active := true))
    ensures GroupOk(file, cs, delivered, FreeGroup)
  {
    hide Genuine;
    CountNone(EmptyGroup.slots, 8);
  }

  lemma StoredIsOk(file: seq<byte>, cs: nat, delivered: set<nat>, g: NodeGroup, i: nat, data: seq<byte>)
    requires cs > 0 && GroupOk(file, cs, delivered, g) && i < 8 && !g.slots[i].present
    requires g.current * 8 + i in delivered && g.current * 8 + i < Total(|file|, cs, true)
    requires Genuine(file, cs, g.current * 8 + i, data)
    ensures GroupOk(file, cs, delivered, g.(slots := g.slots[i := FecSlot(data, true, i == 7)], count := g.count + 1))
  {
    hide Genuine, PresentCount;
    CountAfterStore(g.slots, i, FecSlot(data, true, i == 7), 8);
    var g' := g.(slots := g.slots[i := FecSlot(data, true, i == 7)], count := g.count + 1);
    forall k: nat | k < 8
      ensures SlotOk(file, cs, delivered, g', k)
    {
      assert SlotOk(file, cs, delivered, g, k);
    }
  }

  /** Everything of group g but s was delivered. */
  ghost predicate OthersDelivered(count: nat, delivered: set<nat>, g: nat, s: nat) {
    forall x: nat :: InGroup(x, g) && x != s ==> x in delivered && x < count
  }

  lemma SlotsTellDelivered(file: seq<byte>, cs: nat, delivered: set<nat>, g: NodeGroup, m: nat)
    requires cs > 0 && GroupOk(file, cs, delivered, g) && OnlyMissing(g.slots, m)
    ensures OthersDelivered(Total(|file|, cs, true), delivered, g.current, g.current * 8 + m)
    ensures OthersGenuine(file, cs, Datas(g.slots), g.current, m) && Datas(g.slots)[m] == []
  {
    hide Genuine, Total;
    assert SlotOk(file, cs, delivered, g, m);
    forall x: nat | InGroup(x, g.current) && x != g.current * 8 + m
      ensures x in delivered && x < Total(|file|, cs, true)
    {
      var i := x - g.current * 8;
      assert SlotOk(file, cs, delivered, g, i);
    }
    forall i: nat | i < 8 && i != m
      ensures Genuine(file, cs, g.current * 8 + i, Datas(g.slots)[i])
    {
      assert SlotOk(file, cs, delivered, g, i);
    }
  }

  /** What is rebuilt from a group with one data slot missing is that fragment, and the cloud's
      decoder, given everything delivered so far, holds it too. */
  lemma RebuiltIsRight(file: seq<byte>, cs: nat, delivered: set<nat>, g: NodeGroup, m: nat, data: seq<byte>)
    requires cs > 0 && GroupOk(file, cs, delivered, g) && m < 7 && OnlyMissing(g.slots, m)
    requires Rebuilds(Datas(g.slots), m, data)
    ensures Genuine(file, cs, g.current * 8 + m, data)
    ensures g.current * 8 + m in Closure(Total(|file|, cs, true), true, delivered)
  {
    hide Genuine, Closure, SlotOk, Rebuilds;
    var c := g.current;
    SlotsTellDelivered(file, cs, delivered, g, m);
    assert InGroup(c * 8 + 7, c);
    CountCoversExactly(DataFragments(|file|, cs), c * 8 + 7);
    RebuiltIsGenuine(file, cs, Datas(g.slots), c, m, c * 8 + m, data);
    CountCoversExactly(DataFragments(|file|, cs), c * 8 + m);
    InClosure(Total(|file|, cs, true), delivered, c, c * 8 + m);
  }

  lemma OnlyOneMissing(kept: set<nat>, g: nat, s: nat)
    requires InGroup(s, g) && !IsParity(s) && s !in kept && forall x :: InGroup(x, g) && x != s ==> x in kept
    ensures s in Repaired(kept, g)
  {
    assert GroupSeqs(g) - kept == {s};
  }

  lemma InClosure(count: nat, delivered: set<nat>, g: nat, s: nat)
    requires InGroup(s, g) && !IsParity(s) && s < count && OthersDelivered(count, delivered, g, s)
    ensures s in Closure(count, true, delivered)
  {
    var kept := set x | x in delivered && x < count;
    if s !in delivered {
      OnlyOneMissing(kept, g, s);
    }
  }

  lemma OnlySlotSevenIsParity(file: seq<byte>, cs: nat, delivered: set<nat>, g: NodeGroup)
    requires cs > 0 && GroupOk(file, cs, delivered, g)
    ensures forall i :: 0 <= i < 8 && g.slots[i].present && g.slots[i].isParity ==> i == 7
  {
    forall i: nat | i < 8 && g.slots[i].present && g.slots[i].isParity
      ensures i == 7
    {
      assert SlotOk(file, cs, delivered, g, i);
    }
  }

  class NodeFecDecoder {
    const groups: array<NodeGroup>
    const buf: array<byte>
    var lastUsed: nat
    var result: Result
    /** The file being received and what was ingested since the last reset. */
    ghost const file: seq<byte>
    ghost const cs: nat
    ghost var delivered: set<nat>

    ghost predicate Valid()
      reads this, groups
    {
      && 0 < cs <= MAX_MTU && groups.Length == 2 && buf.Length == MAX_MTU && lastUsed < 2
      && groups as object != buf
      && (groups[0].active && groups[1].active ==> groups[0].current != groups[1].current)
      && GroupOk(file, cs, delivered, groups[0]) && GroupOk(file, cs, delivered, groups[1])
    }

    constructor (ghost file: seq<byte>, ghost cs: nat)
      requires 0 < cs <= MAX_MTU
      ensures Valid() && this.file == file && this.cs == cs && delivered == {} && fresh(groups) && fresh(buf)
    {
      groups := new NodeGroup[2](_ => FreeGroup);
      buf := new byte[MAX_MTU](_ => 0);
      lastUsed, result := 0, Result(-1, 0, 0, false);
      this.file, this.cs, delivered := file, cs, {};
      FreeIsOk(file, cs, {}, 0);
    }

    method Reset()
      requires Valid()
      modifies this`lastUsed, this`result, this`delivered, groups
      ensures Valid() && delivered == {} && !groups[0].active && !groups[1].active
    {
      FreeIsOk(file, cs, {}, 0);
      groups[0], groups[1] := FreeGroup, FreeGroup;
      lastUsed, result, delivered := 0, Result(-1, 0, 0, false), {};
    }

    /** The place of a group; a third group takes the place that was not used last. */
    method Place(group: nat) returns (gi: nat)
      requires Valid()
      modifies this`lastUsed, groups
      ensures Valid() && gi < 2 && lastUsed == gi && groups[gi].active && groups[gi].current == group
      ensures forall k :: 0 <= k < 2 && k != gi ==> groups[k] == old(groups[k])
      ensures groups[gi] == old(groups[gi]) || (gi != old(lastUsed) && groups[gi] == FreeGroup.(current := group, active := true))
    {
      hide GroupOk;
      var found := -1;
      for i := 0 to 2
        invariant found == -1 && forall k :: 0 <= k < i ==> !(groups[k].active && groups[k].current == group)
      {
        if groups[i].active && groups[i].current == group {
          found := i;
          break;
        }
      }
      if found < 0 {
        found := if lastUsed == 0 then 1 else 0;
        FreeIsOk(file, cs, delivered, group);
        groups[found] := FreeGroup.(current := group, active := true);
      }
      lastUsed := found;
      gi := found;
    }

    /** Stores one genuine fragment. A recovery is reported iff its group now misses exactly one
        data fragment; what is recovered is then that fragment. */
    method Ingest(s: nat, data: seq<byte>, isParity: bool) returns (recovered: bool)
      requires Valid() && s < Total(|file|, cs, true) && isParity == IsParity(s) && Genuine(file, cs, s, data)
      modifies this`lastUsed, this`result, this`delivered, groups, buf
      ensures Valid() && delivered == old(delivered) + {s}
      ensures groups[lastUsed].active && groups[lastUsed].current == s / 8 && groups[lastUsed].slots[s % 8].present
      ensures recovered <==> exists m: nat :: m < 7 && OnlyMissing(groups[lastUsed].slots, m)
      ensures recovered ==>
                && 0 <= result.missing < 7 && result.group == s / 8 && result.len <= MAX_MTU
                && Genuine(file, cs, result.group * 8 + result.missing, buf[..result.len])
                && result.group * 8 + result.missing in Closure(Total(|file|, cs, true), true, delivered)
    {
      hide GroupOk, Genuine, Total, Closure, PresentCount;
      if |data| > MAX_MTU {
        GenuineLength(file, cs, s, data);
        assert false;
      }
      var group, idx := s / 8, s % 8;
      var gi := Place(group);
      DeliveredMore(file, cs, delivered, s, groups[0]);
      DeliveredMore(file, cs, delivered, s, groups[1]);
      delivered := delivered + {s};
      var g := groups[gi];
      EightSlots(file, cs, delivered, g);
      if !g.slots[idx].present {
        StoredIsOk(file, cs, delivered, g, idx, data);
        g := g.(slots := g.slots[idx := FecSlot(data, true, isParity)], count := g.count + 1);
        groups[gi] := g;
      }
      EightSlots(file, cs, delivered, g);
      SevenMeansOneMissing(g.slots);
      recovered := false;
      if g.count == 7 {
        recovered := TryRecover(g);
      }
    }

    method HasParityCheck(g: NodeGroup) returns (has: bool)
      requires |g.slots| == 8
      ensures has <==> exists i :: 0 <= i < 8 && g.slots[i].present && g.slots[i].isParity
    {
      for i := 0 to 8
        invariant forall k :: 0 <= k < i ==> !(g.slots[k].present && g.slots[k].isParity)
      {
        if g.slots[i].present && g.slots[i].isParity {
          return true;
        }
      }
      has := false;
    }

    /** Rebuilds the single missing slot of g, unless it is the parity. */
    method TryRecover(g: NodeGroup) returns (recovered: bool)
      requires 0 < cs <= MAX_MTU && buf.Length == MAX_MTU && GroupOk(file, cs, delivered, g)
      modifies this`result, buf
      ensures recovered <==> exists m: nat :: m < 7 && OnlyMissing(g.slots, m)
      ensures recovered ==>
                && 0 <= result.missing < 7 && result.group == g.current && result.len <= MAX_MTU
                && Genuine(file, cs, result.group * 8 + result.missing, buf[..result.len])
                && result.group * 8 + result.missing in Closure(Total(|file|, cs, true), true, delivered)
    {
      hide Genuine, Total, Closure, PresentCount;
      var missing := -1;
      for i := 0 to 8
        invariant -1 <= missing < i
        invariant missing == -1 ==> forall k :: 0 <= k < i ==> g.slots[k].present
        invariant missing >= 0 ==> !g.slots[missing].present && forall k :: 0 <= k < i && k != missing ==> g.slots[k].present
      {
        if !g.slots[i].present {
          if missing >= 0 {
            return false;
          }
          missing := i;
        }
      }
      if missing < 0 {
        return false;
      }
      assert OnlyMissing(g.slots, missing);
      if missing == 7 {
        var has := HasParityCheck(g);
        OnlySlotSevenIsParity(file, cs, delivered, g);
        if !has {
          return false;
        }
        assert false;
      }
      var len := XorOthers(g, missing);
      result := Result(missing, g.current, len, true);
      recovered := true;
      RebuiltIsRight(file, cs, delivered, g, missing, buf[..len]);
    }

    /** One pass over the slots: the longest length and the XOR of all but one. */
    method XorOthers(g: NodeGroup, missing: nat) returns (len: nat)
      requires 0 < cs <= MAX_MTU && buf.Length == MAX_MTU && GroupOk(file, cs, delivered, g)
      requires OnlyMissing(g.slots, missing)
      modifies buf
      ensures len <= MAX_MTU && Rebuilds(Datas(g.slots), missing, buf[..len])
    {
      hide Genuine, Total, PresentCount;
      ghost var datas := Datas(g.slots);
      SlotsFit(file, cs, delivered, g);
      for j := 0 to MAX_MTU
        invariant forall k :: 0 <= k < j ==> buf[k] == 0
      {
        buf[j] := 0;
      }
      len := 0;
      for i := 0 to 8
        invariant len == MaxLen(datas[..i]) <= MAX_MTU
        invariant forall j :: 0 <= j < MAX_MTU ==> buf[j] == XorSkip(datas, missing, i, j)
      {
        assert datas[..i + 1][..i] == datas[..i];
        assert |datas[i]| <= MAX_MTU;
        if i == missing {
          continue;
        }
        ghost var before := buf[..];
        if |g.slots[i].data| > len {
          len := |g.slots[i].data|;
        }
        for j := 0 to |g.slots[i].data|
          invariant forall k :: 0 <= k < j ==> buf[k] == before[k] ^ datas[i][k]
          invariant forall k :: j <= k < MAX_MTU ==> buf[k] == before[k]
        {
          buf[j] := buf[j] ^ g.slots[i].data[j];
        }
      }
      assert datas[..8] == datas;
    }
  }

  lemma GenuineLength(file: seq<byte>, cs: nat, s: nat, data: seq<byte>)
    requires cs > 0 && Genuine(file, cs, s, data)
    ensures |data| <= cs
  {
  }

  lemma EightSlots(file: seq<byte>, cs: nat, delivered: set<nat>, g: NodeGroup)
    requires cs > 0 && GroupOk(file, cs, delivered, g)
    ensures |g.slots| == 8 && g.count == PresentCount(g.slots, 8)
  {
  }

  lemma SlotsFit(file: seq<byte>, cs: nat, delivered: set<nat>, g: NodeGroup)
    requires cs > 0 && GroupOk(file, cs, delivered, g)
    ensures forall i :: 0 <= i < 8 ==> |Datas(g.slots)[i]| <= cs
    ensures forall i :: 0 <= i < 8 && !g.slots[i].present ==> Datas(g.slots)[i] == []
  {
    forall i: nat | i < 8
      ensures |g.slots[i].data| <= cs && (!g.slots[i].present ==> g.slots[i].data == [])
    {
      assert SlotOk(file, cs, delivered, g, i);
    }
  }
}
