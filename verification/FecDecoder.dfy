/** The cloud service's FEC decoder: chunks are collected per group and a single missing
    data chunk is rebuilt by XOR as soon as the other seven are there. */
module FecDecoding {
  import opened Bytes
  import opened Assembly

  datatype FecSlot = FecSlot(data: seq<byte>, present: bool, isParity: bool)

  datatype FecGroup = FecGroup(slots: seq<FecSlot>, count: nat)

  datatype Option<T> = None | Some(value: T)

  datatype FecRecovery = FecRecovery(s: nat, data: seq<byte>)

  const EmptyGroup := FecGroup(seq(8, _ => FecSlot([], false, false)), 0)

  /** Present slots among the first n. */
  function PresentCount(slots: seq<FecSlot>, n: nat): nat
    requires n <= |slots|
  {
    if n == 0 then 0 else PresentCount(slots, n - 1) + if slots[n - 1].present then 1 else 0
  }

  ghost predicate GroupValid(g: FecGroup) {
    && |g.slots| == 8
    && g.count == PresentCount(g.slots, 8)
    && forall i :: 0 <= i < 8 && !g.slots[i].present ==> g.slots[i].data == []
  }

  ghost predicate AllValid(groups: map<nat, FecGroup>) {
    forall g :: g in groups ==> GroupValid(groups[g])
  }

  /** Sequence number s is stored, as received or as rebuilt. */
  ghost predicate Present(groups: map<nat, FecGroup>, s: nat)
    requires AllValid(groups)
  {
    s / 8 in groups && GroupValid(groups[s / 8]) && groups[s / 8].slots[s % 8].present
  }

  ghost function SlotData(groups: map<nat, FecGroup>, s: nat): seq<byte>
    requires AllValid(groups) && Present(groups, s)
  {
    groups[s / 8].slots[s % 8].data
  }

  /** stored lists exactly the present slots with their data. */
  ghost predicate Abstracts(groups: map<nat, FecGroup>, stored: map<nat, seq<byte>>) {
    && AllValid(groups)
    && forall s: nat :: (s in stored <==> Present(groups, s)) && (s in stored ==> stored[s] == SlotData(groups, s))
  }

  function Datas(slots: seq<FecSlot>): seq<seq<byte>> {
    seq(|slots|, i requires 0 <= i < |slots| => slots[i].data)
  }

  lemma {:induction false} CountAfterStore(slots: seq<FecSlot>, i: nat, slot: FecSlot, n: nat)
    requires i < |slots| && n <= |slots| && !slots[i].present && slot.present
    ensures PresentCount(slots[i := slot], n) == PresentCount(slots, n) + if i < n then 1 else 0
  {
    if n > 0 {
      CountAfterStore(slots, i, slot, n - 1);
    }
  }

  /** n minus the count is at least the number of absent slots one can point at. */
  lemma {:induction false} CountBelow(slots: seq<FecSlot>, n: nat)
    requires n <= |slots|
    ensures PresentCount(slots, n) <= n
    ensures forall a :: 0 <= a < n && !slots[a].present ==> PresentCount(slots, n) < n
    ensures forall a, b :: 0 <= a < b < n && !slots[a].present && !slots[b].present ==> PresentCount(slots, n) < n - 1
  {
    if n > 0 {
      CountBelow(slots, n - 1);
    }
  }

  lemma {:induction false} CountAbove(slots: seq<FecSlot>, n: nat, m: nat)
    requires n <= |slots| && forall i :: 0 <= i < n && i != m ==> slots[i].present
    ensures PresentCount(slots, n) >= n - if m < n then 1 else 0
  {
    if n > 0 {
      CountAbove(slots, n - 1, m);
    }
  }

  lemma {:induction false} CountNone(slots: seq<FecSlot>, n: nat)
    requires n <= |slots| && forall i :: 0 <= i < n ==> !slots[i].present
    ensures PresentCount(slots, n) == 0
  {
    if n > 0 {
      CountNone(slots, n - 1);
    }
  }

  ghost predicate OnlyMissing(slots: seq<FecSlot>, m: nat)
    requires |slots| == 8
  {
    m < 8 && !slots[m].present && forall i :: 0 <= i < 8 && i != m ==> slots[i].present
  }

  /** The count test of the decoder is exact: seven present means one missing. */
  lemma SevenMeansOneMissing(slots: seq<FecSlot>)
    requires |slots| == 8
    ensures PresentCount(slots, 8) == 7 <==> exists m: nat :: OnlyMissing(slots, m)
  {
    CountBelow(slots, 8);
    if PresentCount(slots, 8) == 7 {
      if m :| 0 <= m < 8 && !slots[m].present {
        assert OnlyMissing(slots, m);
      } else {
        CountAbove(slots, 8, 8);
      }
    }
    if m: nat :| OnlyMissing(slots, m) {
      CountAbove(slots, 8, m);
    }
  }

  /** What the slots of group g hold, with slot m left empty. */
  function Others(stored: map<nat, seq<byte>>, g: nat, m: nat): seq<seq<byte>> {
    seq(8, i requires 0 <= i =>
      if i != m && g * 8 + i in stored then stored[g * 8 + i] else [])
  }

  /** data is the zero-padded XOR of the others, as long as the longest. */
  ghost predicate Rebuilds(others: seq<seq<byte>>, m: nat, data: seq<byte>)
    requires |others| == 8
  {
    && |data| == MaxLen(others)
    && forall j :: 0 <= j < |data| ==> data[j] == XorSkip(others, m, 8, j)
  }

  class FecDecoder {
    var groups: map<nat, FecGroup>
    /** The chunks stored or rebuilt. */
    ghost var stored: map<nat, seq<byte>>

    ghost predicate Valid()
      reads this
    {
      Abstracts(groups, stored)
    }

    constructor ()
      ensures Valid() && stored == map[]
    {
      groups, stored := map[], map[];
    }

    /** Stores a chunk; returns the fragment that it allows to be rebuilt, if any. */
    method Ingest(s: nat, data: seq<byte>, isParity: bool) returns (rec: Option<FecRecovery>)
      requires Valid()
      modifies this
      ensures Valid()
      ensures s in old(stored) ==> rec.None? && stored == old(stored)
      ensures s !in old(stored) ==>
                && Repaired(old(stored).Keys + {s}, s / 8) == (if rec.Some? then {rec.value.s} else {})
                && stored == if rec.Some? then old(stored)[s := data][rec.value.s := rec.value.data] else old(stored)[s := data]
      ensures rec.Some? ==> Rebuilds(Others(stored, s / 8, rec.value.s % 8), rec.value.s % 8, rec.value.data)
    {
      var groupId, idx := s / 8, s % 8;
      var g := if groupId in groups then groups[groupId] else EmptyGroup;
      assert g.slots[idx].present <==> Present(groups, s);
      if g.slots[idx].present {
        return None;
      }
      Store(s, FecSlot(data, true, isParity));
      CountTestExact(groups, stored, groupId);
      assert stored.Keys == old(stored).Keys + {s};
      if groups[groupId].count == 7 {
        rec := TryRecover(groupId);
      } else {
        rec := None;
      }
    }

    method Store(s: nat, slot: FecSlot)
      requires Valid() && s !in stored && slot.present
      modifies this
      ensures Valid() && stored == old(stored)[s := slot.data]
      ensures s / 8 in groups
    {
      var groupId, idx := s / 8, s % 8;
      var g := if groupId in groups then groups[groupId] else EmptyGroup;
      assert g.slots[idx].present <==> Present(groups, s);
      CountNone(EmptyGroup.slots, 8);
      CountAfterStore(g.slots, idx, slot, 8);
      g := FecGroup(g.slots[idx := slot], g.count + 1);
      AfterStore(groups, stored, groupId, g, s);
      groups, stored := groups[groupId := g], stored[s := slot.data];
    }

    /** The index of the only absent slot, or -1 when there is none or more than one. */
    method FindMissing(slots: seq<FecSlot>) returns (missing: int)
      requires |slots| == 8
      ensures missing == -1 || (0 <= missing && OnlyMissing(slots, missing))
      ensures missing == -1 ==> forall m: nat :: !OnlyMissing(slots, m)
    {
      missing := -1;
      for i := 0 to 8
        invariant missing == -1 ==> forall k :: 0 <= k < i ==> slots[k].present
        invariant missing != -1 ==> 0 <= missing < i && !slots[missing].present
        invariant missing != -1 ==> forall k :: 0 <= k < i && k != missing ==> slots[k].present
      {
        if !slots[i].present {
          if missing != -1 {
            return -1;
          }
          missing := i;
        }
      }
    }

    method TryRecover(groupId: nat) returns (rec: Option<FecRecovery>)
      requires Valid() && groupId in groups
      modifies this
      ensures Valid()
      ensures Repaired(old(stored).Keys, groupId) == if rec.Some? then {rec.value.s} else {}
      ensures stored == if rec.Some? then old(stored)[rec.value.s := rec.value.data] else old(stored)
      ensures rec.Some? ==> Rebuilds(Others(stored, groupId, rec.value.s % 8), rec.value.s % 8, rec.value.data)
    {
      RepairedAsSlots(groups, stored, groupId);
      var g := groups[groupId];
      var missing := FindMissing(g.slots);
      if missing == -1 || missing == 7 {
        return None;
      }
      var recovered := Rebuild(g, missing);
      var s := groupId * 8 + missing;
      IndexInGroup(groupId, missing);
      assert g.slots[missing].present <==> Present(groups, s);
      OthersAreSlots(groups, stored, groupId, missing);
      OthersIgnore(stored, groupId, missing, s, recovered);
      Store(s, FecSlot(recovered, true, false));
      assert Others(stored, groupId, missing) == Datas(g.slots);
      rec := Some(FecRecovery(s, recovered));
    }

    /** The nested XOR loop over the seven present chunks. */
    method Rebuild(g: FecGroup, missing: nat) returns (recovered: seq<byte>)
      requires GroupValid(g) && OnlyMissing(g.slots, missing)
      ensures Rebuilds(Datas(g.slots), missing, recovered)
    {
      ghost var datas := Datas(g.slots);
      var maxLen := 0;
      for i := 0 to 8
        invariant maxLen == MaxLen(datas[..i])
      {
        assert datas[..i + 1][..i] == datas[..i];
        if g.slots[i].present && |g.slots[i].data| > maxLen {
          maxLen := |g.slots[i].data|;
        }
      }
      assert datas[..8] == datas;
      var buf := new byte[maxLen](_ => 0);
      for i := 0 to 8
        invariant forall j :: 0 <= j < maxLen ==> buf[j] == XorSkip(datas, missing, i, j)
      {
        if i != missing {
          MaxLenBounds(datas, i);
          for j := 0 to |g.slots[i].data|
            invariant forall k :: 0 <= k < j ==> buf[k] == XorSkip(datas, missing, i + 1, k)
            invariant forall k :: j <= k < maxLen ==> buf[k] == XorSkip(datas, missing, i, k)
          {
            buf[j] := buf[j] ^ g.slots[i].data[j];
          }
        }
      }
      recovered := buf[..];
    }
  }

  lemma IndexInGroup(g: nat, m: nat)
    requires m < 8
    ensures (g * 8 + m) / 8 == g && (g * 8 + m) % 8 == m
  {
  }

  lemma OthersIgnore(stored: map<nat, seq<byte>>, g: nat, m: nat, s: nat, data: seq<byte>)
    requires m < 8 && s == g * 8 + m
    ensures Others(stored[s := data], g, m) == Others(stored, g, m)
  {
  }

  lemma OthersAreSlots(groups: map<nat, FecGroup>, stored: map<nat, seq<byte>>, groupId: nat, m: nat)
    requires Abstracts(groups, stored) && groupId in groups && OnlyMissing(groups[groupId].slots, m)
    ensures Others(stored, groupId, m) == Datas(groups[groupId].slots)
  {
    var slots := groups[groupId].slots;
    forall i | 0 <= i < 8
      ensures Others(stored, groupId, m)[i] == slots[i].data
    {
      var x := groupId * 8 + i;
      assert x / 8 == groupId && x % 8 == i;
      assert x in stored <==> Present(groups, x);
    }
  }

  /** Replacing one group by a copy with one more slot filled adds exactly that chunk. */
  lemma AfterStore(groups: map<nat, FecGroup>, stored: map<nat, seq<byte>>, groupId: nat, g: FecGroup, s: nat)
    requires Abstracts(groups, stored) && GroupValid(g) && s / 8 == groupId
    requires g.slots[s % 8].present
    requires forall i :: 0 <= i < 8 && i != s % 8 ==>
               g.slots[i] == (if groupId in groups then groups[groupId].slots[i] else EmptyGroup.slots[i])
    ensures Abstracts(groups[groupId := g], stored[s := g.slots[s % 8].data])
  {
    var groups', stored' := groups[groupId := g], stored[s := g.slots[s % 8].data];
    forall x: nat
      ensures x in stored' <==> Present(groups', x)
      ensures x in stored' ==> stored'[x] == SlotData(groups', x)
    {
      assert x == x / 8 * 8 + x % 8 && s == s / 8 * 8 + s % 8;
      assert x in stored <==> Present(groups, x);
    }
  }

  lemma CountTestExact(groups: map<nat, FecGroup>, stored: map<nat, seq<byte>>, groupId: nat)
    requires Abstracts(groups, stored) && groupId in groups
    ensures groups[groupId].count != 7 ==> Repaired(stored.Keys, groupId) == {}
  {
    RepairedAsSlots(groups, stored, groupId);
    SevenMeansOneMissing(groups[groupId].slots);
  }

  /** The decoder's test on slots is the single-erasure condition on sequence numbers. */
  lemma RepairedAsSlots(groups: map<nat, FecGroup>, stored: map<nat, seq<byte>>, groupId: nat)
    requires Abstracts(groups, stored) && groupId in groups
    ensures forall m: nat :: m < 7 && OnlyMissing(groups[groupId].slots, m) ==>
              Repaired(stored.Keys, groupId) == {groupId * 8 + m}
    ensures (forall m: nat :: m < 7 ==> !OnlyMissing(groups[groupId].slots, m)) ==>
              Repaired(stored.Keys, groupId) == {}
  {
    var slots, held := groups[groupId].slots, stored.Keys;
    forall i: nat | i < 8
      ensures InGroup(groupId * 8 + i, groupId)
      ensures slots[i].present <==> groupId * 8 + i in held
    {
      var x := groupId * 8 + i;
      assert x / 8 == groupId && x % 8 == i;
      assert x in stored <==> Present(groups, x);
    }
    forall m: nat | m < 7 && OnlyMissing(slots, m)
      ensures Repaired(held, groupId) == {groupId * 8 + m}
    {
      var s := groupId * 8 + m;
      forall x | x in GroupSeqs(groupId) - held
        ensures x == s
      {
        var i := x - groupId * 8;
        assert slots[i].present <==> groupId * 8 + i in held;
      }
      assert GroupSeqs(groupId) - held == {s};
    }
    forall s | s in Repaired(held, groupId)
      ensures exists m: nat :: m < 7 && OnlyMissing(slots, m)
    {
      var m := s - groupId * 8;
      forall i: nat | i < 8 && i != m
        ensures slots[i].present
      {
        var x := groupId * 8 + i;
        assert slots[i].present <==> x in held;
        assert x in GroupSeqs(groupId);
        assert x !in GroupSeqs(groupId) - held;
      }
      assert slots[m].present <==> groupId * 8 + m in held;
      assert OnlyMissing(slots, m);
    }
  }
}
