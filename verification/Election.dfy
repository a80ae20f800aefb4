/** Electing the exit nodes of a transfer from the candidates that answered. */
module Election {
  import opened Queues

  const MAX_EXIT_NODES := 4
  const INT16_MAX := 0x7FFF

  datatype Candidate = Candidate(addr: nat, rssi: int, hops: nat, load: nat)

  /** The fields as they come off the air: a signed byte and two unsigned ones. */
  ghost predicate Bounded(c: Candidate) {
    -128 <= c.rssi < 128 && c.hops <= 0xFF && c.load <= 0xFF
  }

  /** Reception strength minus penalties for distance and for transfers under way. */
  function Score(c: Candidate): int {
    c.rssi - 6 * c.hops - 32 * c.load
  }

  /** |x| * 2 / 3, at least 6, as the C++ code truncates. */
  function Margin(best: int): nat {
    var m := (if best < 0 then -best else best) * 2 / 3;
    if m < 6 then 6 else m
  }

  /** What the score weighs: a decibel counts one, a hop six, a transfer under way thirty-two. */
  lemma ScoreWeighs(c: Candidate)
    ensures Score(c.(rssi := c.rssi + 1)) == Score(c) + 1
    ensures Score(c.(hops := c.hops + 1)) == Score(c) - 6
    ensures Score(c.(load := c.load + 1)) == Score(c) - 32
    ensures Score(c.(rssi := 0, hops := 0, load := 0)) == 0
  {
  }

  /** A candidate is within the margin of a negative best score iff it is no worse than five thirds
      of it, of a positive one iff it has a third of it; six points are always within. */
  lemma WithinMarginIff(best: int, score: int)
    ensures best >= 0 ==> (score >= best - Margin(best) <==> 3 * score >= best || score >= best - 6)
    ensures best <= 0 ==> (score >= best - Margin(best) <==> 3 * score >= 5 * best || score >= best - 6)
  {
  }

  /** No step of the score, the margin or the threshold leaves 16 bits, and the starting value
      of the maximum is below every score. */
  lemma ScoresFitSixteenBits(c: Candidate)
    requires Bounded(c)
    ensures -32000 < Score(c) <= 127
    ensures 6 * c.hops <= INT16_MAX && 32 * c.load <= INT16_MAX
    ensures -INT16_MAX <= c.rssi - 6 * c.hops
    ensures Margin(Score(c)) <= INT16_MAX && -INT16_MAX <= Score(c) - Margin(Score(c)) < Score(c)
  {
  }

  ghost predicate AllBounded(cs: seq<Candidate>) {
    forall i :: 0 <= i < |cs| ==> Bounded(cs[i])
  }

  ghost predicate Scored(scores: seq<int>, cs: seq<Candidate>) {
    |scores| == |cs| && forall i :: 0 <= i < |cs| ==> scores[i] == Score(cs[i])
  }

  ghost predicate DistinctAddrs(cs: seq<Candidate>) {
    forall i, j :: 0 <= i < j < |cs| ==> cs[i].addr != cs[j].addr
  }

  ghost predicate Descending(cs: seq<Candidate>) {
    forall i, j :: 0 <= i < j < |cs| ==> Score(cs[i]) >= Score(cs[j])
  }

  /** All candidates from position n on score less than the threshold. */
  ghost predicate AllBelow(cs: seq<Candidate>, n: nat, threshold: int) {
    forall k :: n <= k < |cs| ==> Score(cs[k]) < threshold
  }

  lemma NobodyDescends(cs: seq<Candidate>)
    requires |cs| <= 1
    ensures Descending(cs)
  {
  }

  lemma RestBelow(cs: seq<Candidate>, n: nat, threshold: int)
    requires Descending(cs) && n < |cs| && Score(cs[n]) < threshold
    ensures AllBelow(cs, n, threshold)
  {
    hide Score;
  }

  ghost predicate SameCandidates(a: seq<Candidate>, b: seq<Candidate>) {
    multiset(a) == multiset(b)
  }

  function Addrs(cs: seq<Candidate>): (r: seq<nat>)
    ensures |r| == |cs| && forall i :: 0 <= i < |cs| ==> r[i] == cs[i].addr
  {
    seq(|cs|, i requires 0 <= i < |cs| => cs[i].addr)
  }

  /** q with element i taken out and put back at j, j <= i. */
  function MovedUp(q: seq<Candidate>, i: nat, j: nat): seq<Candidate>
    requires j <= i < |q|
  {
    q[..j] + [q[i]] + q[j..i] + q[i + 1..]
  }

  lemma MovedUpIsPermutation(q: seq<Candidate>, i: nat, j: nat)
    requires j <= i < |q|
    ensures forall p :: SameCandidates(q, p) ==> SameCandidates(MovedUp(q, i, j), p)
  {
    assert q == q[..j] + q[j..i] + [q[i]] + q[i + 1..];
  }

  lemma MovedUpDistinct(q: seq<Candidate>, i: nat, j: nat)
    requires j <= i < |q| && DistinctAddrs(q)
    ensures DistinctAddrs(MovedUp(q, i, j))
  {
    var r := MovedUp(q, i, j);
    forall k | 0 <= k < |r|
      ensures r[k] == q[Source(i, j, k)]
    {
    }
  }

  /** Where the element at k of the moved sequence came from. */
  function Source(i: nat, j: nat, k: nat): nat {
    if k < j then k else if k == j then i else if k <= i then k - 1 else k
  }

  lemma ShiftedIsMovedUp(q: seq<Candidate>, r: seq<Candidate>, i: nat, j: nat)
    requires j <= i < |q| == |r|
    requires forall k :: 0 <= k < |q| && (k < j || k > i) ==> r[k] == q[k]
    requires forall k :: j < k <= i ==> r[k] == q[k - 1]
    requires r[j] == q[i]
    ensures r == MovedUp(q, i, j)
  {
  }

  lemma MovedUpDescends(q: seq<Candidate>, i: nat, j: nat)
    requires j <= i < |q| && Descending(q[..i])
    requires forall k :: 0 <= k < j ==> Score(q[k]) >= Score(q[i])
    requires forall k :: j <= k < i ==> Score(q[k]) < Score(q[i])
    ensures Descending(MovedUp(q, i, j)[..i + 1])
  {
    var r := MovedUp(q, i, j)[..i + 1];
    forall k | 0 <= k <= i
      ensures r[k] == q[Source(i, j, k)]
    {
    }
    assert forall k :: 0 <= k < i ==> q[..i][k] == q[k];
  }

  /** s is q with the elements from g up to i shifted up by one, all of which score less than
      element i; position g is free. */
  ghost predicate GapAt(q: seq<Candidate>, s: seq<Candidate>, i: nat, g: nat)
    requires g <= i < |q| == |s|
  {
    && (forall k :: 0 <= k < |q| && (k < g || k > i) ==> s[k] == q[k])
    && (forall k :: g < k <= i ==> s[k] == q[k - 1])
    && (forall k :: g <= k < i ==> Score(q[k]) < Score(q[i]))
  }

  lemma NoGapYet(q: seq<Candidate>, i: nat)
    requires i < |q|
    ensures GapAt(q, q, i, i)
  {
  }

  lemma GapMoves(q: seq<Candidate>, s: seq<Candidate>, i: nat, j: nat)
    requires j < i < |q| == |s| && GapAt(q, s, i, j + 1) && Score(s[j]) < Score(q[i])
    ensures GapAt(q, s[j + 1 := s[j]], i, j)
  {
    hide Score;
  }

  lemma GapCloses(q: seq<Candidate>, s: seq<Candidate>, i: nat, g: nat)
    requires g <= i < |q| == |s| && Descending(q[..i]) && GapAt(q, s, i, g)
    requires g > 0 ==> Score(s[g - 1]) >= Score(q[i])
    ensures s[g := q[i]] == MovedUp(q, i, g) && Descending(s[g := q[i]][..i + 1])
  {
    hide Score;
    ShiftedIsMovedUp(q, s[g := q[i]], i, g);
    forall k | 0 <= k < g
      ensures Score(q[k]) >= Score(q[i])
    {
      assert q[..i][k] == q[k] && q[..i][g - 1] == q[g - 1];
    }
    MovedUpDescends(q, i, g);
  }

  /** The candidate list while an election is open. */
  class Candidates {
    const candidates: array<Candidate>
    const scores: array<int>
    var count: nat

    ghost predicate Valid()
      reads this, candidates
    {
      && candidates.Length == MAX_EXIT_NODES && scores.Length == MAX_EXIT_NODES && count <= MAX_EXIT_NODES
      && candidates as object != scores
      && DistinctAddrs(candidates[..count]) && AllBounded(candidates[..count])
    }

    constructor ()
      ensures Valid() && count == 0 && fresh(candidates) && fresh(scores)
    {
      candidates := new Candidate[MAX_EXIT_NODES](_ => Candidate(0, 0, 0, 0));
      scores := new int[MAX_EXIT_NODES](_ => 0);
      count := 0;
    }

    /** An exit node answers: the first answer of each counts, as long as there is room. */
    method HandleTransferAck(addr: nat, rssi: int, hops: nat, load: nat, sourceHops: nat)
      requires Valid() && Bounded(Candidate(addr, rssi, hops, load)) && sourceHops <= 0xFF
      modifies this`count, candidates
      ensures Valid()
      ensures var was := old(candidates[..count]);
              candidates[..count] == if addr in Addrs(was) || |was| == MAX_EXIT_NODES then was
                                     else was + [Candidate(addr, rssi, if hops != 0 then hops else sourceHops, load)]
    {
      ghost var was := candidates[..count];
      for i := 0 to count
        invariant forall k :: 0 <= k < i ==> candidates[k].addr != addr
      {
        if candidates[i].addr == addr {
          assert Addrs(was)[i] == addr;
          return;
        }
      }
      if count < MAX_EXIT_NODES {
        candidates[count] := Candidate(addr, rssi, if hops != 0 then hops else sourceHops, load);
        count := count + 1;
        assert candidates[..count] == was + [candidates[count - 1]];
      }
    }

    /** Scores all candidates and finds the best score. */
    method ScoreAll() returns (best: int)
      requires Valid()
      modifies scores
      ensures Scored(scores[..count], candidates[..count])
      ensures count > 0 ==> exists k :: 0 <= k < count && best == Score(candidates[k])
      ensures forall k :: 0 <= k < count ==> Score(candidates[k]) <= best
    {
      best := -32000;
      for i := 0 to count
        invariant forall k :: 0 <= k < i ==> scores[k] == Score(candidates[k]) <= best
        invariant if i == 0 then best == -32000 else exists k :: 0 <= k < i && best == Score(candidates[k])
      {
        assert Bounded(candidates[..count][i]);
        ScoresFitSixteenBits(candidates[i]);
        scores[i] := Score(candidates[i]);
        if scores[i] > best {
          best := scores[i];
        }
      }
    }

    /** Moves candidate i up past all that score less; both arrays move in step. */
    method InsertInOrder(i: nat) returns (ghost at: nat)
      requires Valid() && 0 < i < count && Descending(candidates[..i])
      requires Scored(scores[..count], candidates[..count])
      modifies candidates, scores
      ensures at <= i && candidates[..count] == MovedUp(old(candidates[..count]), i, at)
      ensures Scored(scores[..count], candidates[..count])
      ensures Descending(candidates[..i + 1])
    {
      hide DistinctAddrs, AllBounded, MovedUp, Score, Descending, GapAt;
      ghost var q := candidates[..count];
      assert q[..i] == candidates[..i];
      assert forall k :: 0 <= k < count ==> scores[..count][k] == scores[k];
      var tc, ts := candidates[i], scores[i];
      var g := ShiftLower(i, ts, q);
      at := g;
      GapCloses(q, candidates[..count], i, at);
      ghost var s := candidates[..count][at := tc];
      candidates[g] := tc;
      scores[g] := ts;
      assert candidates[..count] == s;
      assert candidates[..i + 1] == s[..i + 1];
    }

    /** Shifts what scores less than ts in front of i up by one; g is the place that comes free. */
    method ShiftLower(i: nat, ts: int, ghost q: seq<Candidate>) returns (g: nat)
      requires |q| == count <= candidates.Length == scores.Length && candidates as object != scores
      requires i < count && candidates[..count] == q && ts == Score(q[i])
      requires forall k :: 0 <= k < count ==> scores[k] == Score(q[k])
      modifies candidates, scores
      ensures g <= i && GapAt(q, candidates[..count], i, g)
      ensures forall k :: 0 <= k < count && k != g ==> scores[k] == Score(candidates[k])
      ensures g > 0 ==> Score(candidates[g - 1]) >= ts
    {
      hide Score, GapAt;
      ghost var s := q;
      var j := i - 1;
      NoGapYet(q, i);
      while j >= 0 && scores[j] < ts
        invariant -1 <= j < i && |s| == count && GapAt(q, s, i, j + 1)
        invariant forall k :: 0 <= k < count ==> candidates[k] == s[k]
        invariant forall k :: 0 <= k < count && k != j + 1 ==> scores[k] == Score(s[k])
      {
        GapMoves(q, s, i, j);
        candidates[j + 1] := candidates[j];
        scores[j + 1] := scores[j];
        s := s[j + 1 := s[j]];
        j := j - 1;
      }
      g := j + 1;
      assert candidates[..count] == s;
    }

    /** Insertion sort on the two parallel arrays. */
    method SortByScore()
      requires Valid() && Scored(scores[..count], candidates[..count])
      modifies candidates, scores
      ensures Valid() && Descending(candidates[..count])
      ensures SameCandidates(candidates[..count], old(candidates[..count]))
      ensures Scored(scores[..count], candidates[..count])
    {
      hide AllBounded, DistinctAddrs, MovedUp, Descending, Scored;
      ghost var was := candidates[..count];
      assert SameCandidates(was, was);
      hide SameCandidates;
      if count == 0 {
        NobodyDescends(candidates[..count]);
        return;
      }
      NobodyDescends(candidates[..1]);
      for i := 1 to count
        invariant Valid() && Descending(candidates[..i])
        invariant SameCandidates(candidates[..count], was)
        invariant Scored(scores[..count], candidates[..count])
      {
        ghost var q := candidates[..count];
        ghost var j := InsertInOrder(i);
        MovedUpIsPermutation(q, i, j);
        MovedUpDistinct(q, i, j);
        MovedUpBounded(q, i, j);
      }
    }

    /** Takes the candidates within the margin, in order, up to the limit. */
    method Accept(best: int, limit: nat) returns (exits: seq<nat>)
      requires Valid() && count > 0 && Descending(candidates[..count]) && best == Score(candidates[0])
      requires Scored(scores[..count], candidates[..count])
      ensures |exits| <= count && |exits| <= limit && exits == Addrs(candidates[..|exits|]) && (limit > 0 ==> |exits| > 0)
      ensures forall k :: 0 <= k < |exits| ==> Score(candidates[k]) >= best - Margin(best)
      ensures |exits| < limit && |exits| < MAX_EXIT_NODES ==> AllBelow(candidates[..count], |exits|, best - Margin(best))
    {
      hide AllBounded, DistinctAddrs, Score;
      ghost var cs := candidates[..count];
      var threshold := best - Margin(best);
      var acceptLimit := if limit > MAX_EXIT_NODES then MAX_EXIT_NODES else limit;
      exits := [];
      for i := 0 to count
        invariant |exits| <= i && |exits| <= acceptLimit && (limit > 0 && i > 0 ==> |exits| > 0)
        invariant exits == Addrs(cs[..|exits|])
        invariant forall k :: 0 <= k < |exits| ==> Score(cs[k]) >= threshold
        invariant |exits| < i && |exits| < acceptLimit ==> AllBelow(cs, |exits|, threshold)
      {
        if |exits| < acceptLimit {
          if scores[i] >= threshold {
            exits := exits + [candidates[i].addr];
          } else if |exits| == i {
            RestBelow(cs, i, threshold);
          }
        }
      }
      assert cs[..|exits|] == candidates[..|exits|];
    }

    /** The election itself. The elected exits are the best-scoring candidates, in order: all
        those within the margin of the best one, at most limit of them. They are distinct and
        at least one; the fallback for an empty result is reached only with a limit of zero. */
    method Elect(limit: nat) returns (exits: seq<nat>, ghost fallback: bool)
      requires Valid() && count > 0
      modifies candidates, scores
      ensures Valid() && SameCandidates(candidates[..count], old(candidates[..count])) && Descending(candidates[..count])
      ensures 0 < |exits| <= count && NoDup(exits) && exits == Addrs(candidates[..|exits|])
      ensures fallback <==> limit == 0
      ensures !fallback ==> |exits| <= limit
      ensures var threshold := Score(candidates[0]) - Margin(Score(candidates[0]));
              && (limit > 0 ==> forall k :: 0 <= k < |exits| ==> Score(candidates[k]) >= threshold)
              && (|exits| < limit && |exits| < MAX_EXIT_NODES ==> AllBelow(candidates[..count], |exits|, threshold))
    {
      hide AllBounded, Scored, Score, Descending, Margin, SameCandidates;
      ghost var before := candidates[..count];
      var best := ScoreAll();
      assert candidates[..count] == before;
      SortByScore();
      BestIsFirst(before, candidates[..count], best);
      exits := Accept(best, limit);
      fallback := false;
      if |exits| == 0 {
        fallback := true;
        exits := [candidates[0].addr];
        assert exits == Addrs(candidates[..1]);
      }
    }
  }

  /** After sorting the first candidate has the best score. */
  lemma BestIsFirst(before: seq<Candidate>, after: seq<Candidate>, best: int)
    requires SameCandidates(after, before) && Descending(after) && after != []
    requires exists k :: 0 <= k < |before| && Score(before[k]) == best
    requires forall k :: 0 <= k < |before| ==> Score(before[k]) <= best
    ensures Score(after[0]) == best
  {
    hide Score;
    var k :| 0 <= k < |before| && Score(before[k]) == best;
    assert before[k] in multiset(after);
    var m :| 0 <= m < |after| && after[m] == before[k];
    assert after[0] in multiset(before);
    var n :| 0 <= n < |before| && before[n] == after[0];
  }

  lemma MovedUpBounded(q: seq<Candidate>, i: nat, j: nat)
    requires j <= i < |q| && AllBounded(q)
    ensures AllBounded(MovedUp(q, i, j))
  {
    hide Bounded;
  }
}
