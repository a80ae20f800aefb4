/** What a receiver of this layout ends up holding, as a function of what was delivered. */
module Assembly {
  import opened Bytes
  import opened Layout
  import opened Counting

  predicate InGroup(s: nat, g: nat) {
    g * 8 <= s < (g + 1) * 8
  }

  /** The eight sequence numbers of FEC group g. */
  function GroupSeqs(g: nat): set<nat> {
    set s: nat | g * 8 <= s < (g + 1) * 8 && InGroup(s, g)
  }

  /** The data fragment, if any, that single-erasure recovery adds to group g. */
  function Repaired(r: set<nat>, g: nat): set<nat> {
    set s: nat | g * 8 <= s < (g + 1) * 8 && s !in r && !IsParity(s) && GroupSeqs(g) - r == {s}
  }

  /** One chunk handed to the reassembler. */
  function Deliver(count: nat, fec: bool, r: set<nat>, s: nat): set<nat> {
    if s >= count || s in r then r
    else if !fec then r + {s}
    else r + {s} + Repaired(r + {s}, s / 8)
  }

  function DeliverAll(count: nat, fec: bool, seqs: seq<nat>): set<nat> {
    if seqs == [] then {}
    else Deliver(count, fec, DeliverAll(count, fec, seqs[..|seqs| - 1]), seqs[|seqs| - 1])
  }

  function Elements(seqs: seq<nat>): set<nat> {
    set s | s in seqs
  }

  /** What is held once the set d has been delivered, described without an order. */
  function Closure(count: nat, fec: bool, d: set<nat>): set<nat> {
    var kept := set s | s in d && s < count;
    if fec then kept + set s: nat | s < count && s in Repaired(kept, s / 8) else kept
  }

  lemma RepairedWithin(count: nat, r: set<nat>, g: nat)
    requires forall s :: s in r ==> s < count
    ensures forall s :: s in Repaired(r, g) ==> s < count && s / 8 == g
  {
    forall s | s in Repaired(r, g)
      ensures s < count && s / 8 == g
    {
      var parity := g * 8 + 7;
      assert InGroup(parity, g) && parity != s;
      assert parity !in GroupSeqs(g) - r;
    }
  }

  /** Recovery in one group does not look at the others. */
  lemma RepairedLocal(r: set<nat>, r': set<nat>, g: nat)
    requires forall s :: s / 8 == g ==> (s in r <==> s in r')
    ensures Repaired(r, g) == Repaired(r', g)
  {
    assert GroupSeqs(g) - r == GroupSeqs(g) - r' by {
      forall s | s in GroupSeqs(g)
        ensures s in r <==> s in r'
      {
        assert s / 8 == g;
      }
    }
    forall s: nat | g * 8 <= s < (g + 1) * 8
      ensures s in r <==> s in r'
    {
      assert s / 8 == g;
    }
  }

  lemma ClosureStep(count: nat, fec: bool, d: set<nat>, s: nat)
    ensures Deliver(count, fec, Closure(count, fec, d), s) == Closure(count, fec, d + {s})
  {
    var kept := set x | x in d && x < count;
    var kept' := set x | x in d + {s} && x < count;
    if s >= count {
      assert kept' == kept;
    } else {
      assert kept' == kept + {s};
      if fec {
        var c, g := Closure(count, fec, d), s / 8;
        ClosureInGroup(count, d, g);
        RepairedWithin(count, kept', g);
        forall x: nat | x < count
          ensures x in Deliver(count, fec, c, s) <==> x in Closure(count, fec, d + {s})
        {
          if x / 8 == g {
            DeliverInGroup(count, d, s, x);
          } else {
            RepairedLocal(kept, kept', x / 8);
            RepairedWithin(count, c + {s}, g);
          }
        }
        RepairedWithin(count, c + {s}, g);
      }
    }
  }

  /** Inside one group the closure either adds the single missing data fragment or nothing. */
  lemma ClosureInGroup(count: nat, d: set<nat>, g: nat)
    ensures var kept := set x | x in d && x < count;
            forall x: nat :: x / 8 == g ==>
              (x in Closure(count, true, d) <==> x in kept || x in Repaired(kept, g))
  {
    var kept := set x | x in d && x < count;
    RepairedWithin(count, kept, g);
  }

  lemma NothingRepaired(r: set<nat>, g: nat, s: nat)
    requires InGroup(s, g) && s !in r && s !in Repaired(r, g)
    ensures Repaired(r, g) == {}
  {
    assert s in GroupSeqs(g) - r;
  }

  lemma DeliverInGroup(count: nat, d: set<nat>, s: nat, x: nat)
    requires s < count && x < count && x / 8 == s / 8
    ensures x in Deliver(count, true, Closure(count, true, d), s) <==> x in Closure(count, true, d + {s})
  {
    var g := s / 8;
    var kept := set y | y in d && y < count;
    var kept' := set y | y in d + {s} && y < count;
    var c := Closure(count, true, d);
    assert kept' == kept + {s};
    ClosureInGroup(count, d, g);
    ClosureInGroup(count, d + {s}, g);
    assert s in GroupSeqs(g) && x in GroupSeqs(g);
    if s in kept {
      assert kept' == kept;
    } else if s in Repaired(kept, g) {
      // The missing fragment had been recovered; its late arrival is a duplicate.
      assert GroupSeqs(g) - kept == {s};
    } else {
      NothingRepaired(kept, g, s);
      forall y: nat | y / 8 == g
        ensures y in c + {s} <==> y in kept'
      {
      }
      RepairedLocal(c + {s}, kept', g);
    }
  }

  /** Order independence: whatever the order and the duplicates, the reassembler ends up
      holding the closure of the set of chunks that arrived. */
  lemma {:induction false} OrderIndependent(count: nat, fec: bool, seqs: seq<nat>)
    ensures DeliverAll(count, fec, seqs) == Closure(count, fec, Elements(seqs))
  {
    if seqs == [] {
      if fec {
        var kept := set x | x in Elements(seqs) && x < count;
        assert kept == {};
        forall s: nat | s < count
          ensures s !in Repaired({}, s / 8)
        {
          var g := s / 8;
          NothingRepaired({}, g, g * 8 + 7);
        }
      }
    } else {
      var last := |seqs| - 1;
      OrderIndependent(count, fec, seqs[..last]);
      ClosureStep(count, fec, Elements(seqs[..last]), seqs[last]);
      assert seqs == seqs[..last] + [seqs[last]];
      assert Elements(seqs[..last]) + {seqs[last]} == Elements(seqs);
    }
  }

  // ---- Completeness ----

  function SeqFor(fec: bool, d: nat): nat {
    if fec then SeqOf(d) else d
  }

  ghost predicate HoldsAllData(dataFrags: nat, fec: bool, r: set<nat>) {
    forall d: nat :: d < dataFrags ==> SeqFor(fec, d) in r
  }

  /** At most one chunk of group g is absent from d. */
  ghost predicate AtMostOneLost(d: set<nat>, g: nat) {
    forall a, b :: a in GroupSeqs(g) && b in GroupSeqs(g) && a !in d && b !in d ==> a == b
  }

  /** What the channel must let through: with FEC all but one chunk of every full group and
      everything of the trailing group, without FEC everything. */
  ghost predicate EnoughArrived(dataFrags: nat, fec: bool, d: set<nat>) {
    if !fec then forall s: nat :: s < dataFrags ==> s in d
    else
      && (forall g: nat :: g < dataFrags / 7 ==> AtMostOneLost(d, g))
      && (forall s: nat :: dataFrags / 7 * 8 <= s < FragmentCount(dataFrags) ==> s in d)
  }

  lemma GroupIsFull(dataFrags: nat, g: nat)
    requires g < dataFrags / 7
    ensures forall s :: s in GroupSeqs(g) ==> s < FragmentCount(dataFrags) && s / 8 == g
  {
    assert (g + 1) * 8 <= dataFrags / 7 * 8;
  }

  lemma GroupRecovers(dataFrags: nat, d: set<nat>, g: nat, s: nat)
    requires g < dataFrags / 7 && AtMostOneLost(d, g)
    requires s in GroupSeqs(g) && !IsParity(s)
    ensures s in Closure(FragmentCount(dataFrags), true, d)
  {
    var count := FragmentCount(dataFrags);
    var kept := set x | x in d && x < count;
    GroupIsFull(dataFrags, g);
    if s !in d {
      assert GroupSeqs(g) - kept == {s};
      assert s in Repaired(kept, g);
    }
  }

  lemma GroupLost(dataFrags: nat, d: set<nat>, g: nat, a: nat, b: nat)
    requires g < dataFrags / 7
    requires a in GroupSeqs(g) && b in GroupSeqs(g) && a != b && a !in d && b !in d
    ensures a !in Closure(FragmentCount(dataFrags), true, d)
  {
    var count := FragmentCount(dataFrags);
    var kept := set x | x in d && x < count;
    GroupIsFull(dataFrags, g);
    assert a / 8 == g;
    assert b in GroupSeqs(g) - kept;
    assert GroupSeqs(g) - kept != {a};
  }

  /** Completion is possible exactly when the channel lost no more than single-erasure
      recovery can repair. */
  lemma CompleteIffEnoughArrived(dataFrags: nat, fec: bool, d: set<nat>)
    ensures HoldsAllData(dataFrags, fec, Closure(if fec then FragmentCount(dataFrags) else dataFrags, fec, d)) <==>
            EnoughArrived(dataFrags, fec, d)
  {
    if fec {
      var count := FragmentCount(dataFrags);
      var c := Closure(count, true, d);
      if EnoughArrived(dataFrags, true, d) {
        forall k: nat | k < dataFrags
          ensures SeqFor(fec, k) in c
        {
          SeqOfInverse(k);
          CountCoversExactly(dataFrags, SeqOf(k));
          var g := SeqOf(k) / 8;
          if g < dataFrags / 7 {
            assert SeqOf(k) in GroupSeqs(g);
            GroupRecovers(dataFrags, d, g, SeqOf(k));
          } else {
            assert SeqOf(k) in d;
          }
        }
      }
      if HoldsAllData(dataFrags, true, c) {
        forall g: nat | g < dataFrags / 7
          ensures AtMostOneLost(d, g)
        {
          GroupComplete(dataFrags, d, g);
        }
        forall s: nat | dataFrags / 7 * 8 <= s < count
          ensures s in d
        {
          TrailingComplete(dataFrags, d, s);
        }
      }
    } else {
      if HoldsAllData(dataFrags, false, Closure(dataFrags, false, d)) {
        forall s: nat | s < dataFrags
          ensures s in d
        {
          assert SeqFor(false, s) in Closure(dataFrags, false, d);
        }
      }
    }
  }

  lemma GroupComplete(dataFrags: nat, d: set<nat>, g: nat)
    requires g < dataFrags / 7
    requires HoldsAllData(dataFrags, true, Closure(FragmentCount(dataFrags), true, d))
    ensures AtMostOneLost(d, g)
  {
    GroupIsFull(dataFrags, g);
    forall a, b | a in GroupSeqs(g) && b in GroupSeqs(g) && a !in d && b !in d
      ensures a == b
    {
      if a != b {
        var x, y := if IsParity(a) then b else a, if IsParity(a) then a else b;
        GroupLost(dataFrags, d, g, x, y);
        CountCoversExactly(dataFrags, x);
        DataIndexInverse(x);
        var held := SeqFor(true, DataIndex(x));
      }
    }
  }

  lemma TrailingComplete(dataFrags: nat, d: set<nat>, s: nat)
    requires dataFrags / 7 * 8 <= s < FragmentCount(dataFrags)
    requires HoldsAllData(dataFrags, true, Closure(FragmentCount(dataFrags), true, d))
    ensures s in d
  {
    var count := FragmentCount(dataFrags);
    var kept := set x | x in d && x < count;
    CountCoversExactly(dataFrags, s);
    assert !IsParity(s);
    DataIndexInverse(s);
    assert SeqFor(true, DataIndex(s)) == s;
    var parity := s / 8 * 8 + 7;
    CountCoversExactly(dataFrags, parity);
    assert InGroup(parity, s / 8) && parity != s;
    assert parity in GroupSeqs(s / 8) - kept;
    assert s !in Repaired(kept, s / 8);
  }

  // ---- The buffer ----

  /** The reassembly buffer when exactly the chunks in r are held: file bytes where the
      fragment is held, zeros elsewhere. */
  function Assembled(file: seq<byte>, cs: nat, fec: bool, r: set<nat>): seq<byte>
    requires cs > 0
  {
    seq(|file|, k requires 0 <= k < |file| => if SeqFor(fec, FragmentOf(cs, k)) in r then file[k] else 0)
  }

  function DataHeld(dataFrags: nat, fec: bool, r: set<nat>): set<nat> {
    set d: nat | d < dataFrags && SeqFor(fec, d) in r
  }

  /** The counter test is exact: it reaches the fragment count iff all data is held. */
  lemma CounterIsExact(dataFrags: nat, fec: bool, r: set<nat>)
    ensures |DataHeld(dataFrags, fec, r)| >= dataFrags <==> HoldsAllData(dataFrags, fec, r)
  {
    var all := Below(dataFrags);
    if |DataHeld(dataFrags, fec, r)| >= dataFrags {
      SubsetOfSameSize(DataHeld(dataFrags, fec, r), all);
      forall d: nat | d < dataFrags
        ensures SeqFor(fec, d) in r
      {
        assert d in all;
      }
    }
    if HoldsAllData(dataFrags, fec, r) {
      assert DataHeld(dataFrags, fec, r) == all;
    }
  }

  lemma CompleteMeansEqual(file: seq<byte>, cs: nat, fec: bool, r: set<nat>)
    requires cs > 0 && HoldsAllData(DataFragments(|file|, cs), fec, r)
    ensures Assembled(file, cs, fec, r) == file
  {
    forall k | 0 <= k < |file|
      ensures Assembled(file, cs, fec, r)[k] == file[k]
    {
      ByteLivesIn(|file|, cs, k);
    }
  }

  /** Data index d already shows the file's bytes in the buffer. */
  ghost predicate RegionMatches(file: seq<byte>, cs: nat, buffer: seq<byte>, d: nat)
    requires cs > 0 && |buffer| == |file|
  {
    forall k :: 0 <= k < |file| && k / cs == d ==> buffer[k] == file[k]
  }

  /** A region shows the file's bytes iff its fragment is held or consists of zeros. */
  lemma RegionMatchesIff(file: seq<byte>, cs: nat, fec: bool, r: set<nat>, d: nat)
    requires cs > 0 && d < DataFragments(|file|, cs)
    ensures RegionMatches(file, cs, Assembled(file, cs, fec, r), d) <==>
            SeqFor(fec, d) in r || forall i :: 0 <= i < |Chunk(file, cs, d)| ==> Chunk(file, cs, d)[i] == 0
  {
    ChunkShape(file, cs, d);
    var chunk := Chunk(file, cs, d);
    forall k | 0 <= k < |file| && k / cs == d
      ensures 0 <= k - d * cs < |chunk| && chunk[k - d * cs] == file[k]
    {
      ChunksDisjoint(cs, k, d);
      FragmentBounds(|file|, cs, d + 1);
      assert (d + 1) * cs == d * cs + cs;
    }
    forall i | 0 <= i < |chunk|
      ensures (d * cs + i) / cs == d && file[d * cs + i] == chunk[i]
    {
      ChunksDisjoint(cs, d * cs + i, d);
    }
    if SeqFor(fec, d) !in r && RegionMatches(file, cs, Assembled(file, cs, fec, r), d) {
      forall i | 0 <= i < |chunk|
        ensures chunk[i] == 0
      {
        var k := d * cs + i;
        assert Assembled(file, cs, fec, r)[k] == file[k];
      }
    }
  }

  ghost predicate IsZero(s: seq<byte>) {
    forall i :: 0 <= i < |s| ==> s[i] == 0
  }

  /** The regions of the buffer that show the file. */
  ghost function Matching(file: seq<byte>, cs: nat, fec: bool, r: set<nat>): set<nat>
    requires cs > 0
  {
    set d: nat | d < DataFragments(|file|, cs) && RegionMatches(file, cs, Assembled(file, cs, fec, r), d)
  }

  /** The all-zero fragments that are not held. */
  ghost function MissingZeros(file: seq<byte>, cs: nat, fec: bool, r: set<nat>): set<nat>
    requires cs > 0
  {
    set d: nat | d < DataFragments(|file|, cs) && SeqFor(fec, d) !in r && IsZero(Chunk(file, cs, d))
  }

  /** The received counter falls short of the number of regions that show the file exactly by
      the all-zero fragments that are not held; so the two agree iff there is no such fragment. */
  lemma CounterUnderstates(file: seq<byte>, cs: nat, fec: bool, r: set<nat>)
    requires cs > 0
    ensures |Matching(file, cs, fec, r)| == |DataHeld(DataFragments(|file|, cs), fec, r)| + |MissingZeros(file, cs, fec, r)|
    ensures |DataHeld(DataFragments(|file|, cs), fec, r)| == |Matching(file, cs, fec, r)| <==>
            forall d: nat :: d < DataFragments(|file|, cs) && SeqFor(fec, d) !in r ==> !IsZero(Chunk(file, cs, d))
  {
    var held, zeros := DataHeld(DataFragments(|file|, cs), fec, r), MissingZeros(file, cs, fec, r);
    forall d: nat | d < DataFragments(|file|, cs)
      ensures d in Matching(file, cs, fec, r) <==> d in held || d in zeros
    {
      RegionMatchesIff(file, cs, fec, r, d);
    }
    assert Matching(file, cs, fec, r) == held + zeros;
    assert held !! zeros;
    if d: nat :| d < DataFragments(|file|, cs) && SeqFor(fec, d) !in r && IsZero(Chunk(file, cs, d)) {
      assert d in zeros;
    } else {
      assert zeros == {};
    }
  }

  /** A file of one zero byte: nothing was received, yet its only region shows the file. */
  lemma ZeroShowsBeforeItArrives()
    ensures RegionMatches([0], 1, Assembled([0], 1, false, {}), 0)
    ensures |DataHeld(DataFragments(1, 1), false, {})| == 0 && |Matching([0], 1, false, {})| == 1
  {
    CounterUnderstates([0], 1, false, {});
    assert MissingZeros([0], 1, false, {}) == {0};
    assert DataHeld(DataFragments(1, 1), false, {}) == {};
  }
}
