/** Queues of sequence numbers and the in-place compaction that the firmware runs on them. */
module Queues {

  ghost predicate NoDup(s: seq<nat>) {
    forall i, j :: 0 <= i < j < |s| ==> s[i] != s[j]
  }

  function RemoveAt(q: seq<nat>, k: nat): seq<nat>
    requires k < |q|
  {
    q[..k] + q[k + 1..]
  }

  lemma RemoveAtMembers(q: seq<nat>, k: nat)
    requires NoDup(q) && k < |q|
    ensures NoDup(RemoveAt(q, k)) && forall x :: x in RemoveAt(q, k) <==> x in q && x != q[k]
  {
    var r := RemoveAt(q, k);
    forall x | x in q && x != q[k]
      ensures x in r
    {
      var j :| 0 <= j < |q| && q[j] == x;
      assert if j < k then r[j] == x else r[j - 1] == x;
    }
  }

  lemma NoDupAppend(a: seq<nat>, b: seq<nat>)
    requires NoDup(a) && NoDup(b) && forall x :: x in b ==> x !in a
    ensures NoDup(a + b) && forall x :: x in a + b <==> x in a || x in b
  {
    forall i, j | 0 <= i < j < |a + b|
      ensures (a + b)[i] != (a + b)[j]
    {
      if i < |a| <= j {
        assert a[i] in a && b[j - |a|] in b;
      }
    }
  }

  function KeptAndRest(q: seq<nat>, kept: nat, r: nat, count: nat): seq<nat>
    requires kept <= r <= count <= |q|
  {
    q[..kept] + q[r..count]
  }

  /** Compaction: taking entry r out, or sliding it down, leaves the others as they were. */
  lemma WaitingSteps(q: seq<nat>, kept: nat, r: nat, count: nat)
    requires kept <= r < count <= |q|
    ensures var w := KeptAndRest(q, kept, r, count);
            && kept < |w| && w[kept] == q[r]
            && RemoveAt(w, kept) == KeptAndRest(q, kept, r + 1, count)
            && KeptAndRest(q[kept := q[r]], kept + 1, r + 1, count) == w
  {
    var w := KeptAndRest(q, kept, r, count);
    assert RemoveAt(w, kept) == q[..kept] + q[r + 1..count];
    var q' := q[kept := q[r]];
    assert q'[..kept + 1] == q[..kept] + [q[r]];
    assert q'[r + 1..count] == q[r + 1..count];
    assert q[r..count] == [q[r]] + q[r + 1..count];
  }

  lemma SlideAndSet(q: seq<nat>, kept: nat, r: nat, count: nat, x: nat)
    requires kept <= r < count <= |q|
    ensures kept < |KeptAndRest(q, kept, r, count)|
    ensures KeptAndRest(q[kept := x], kept + 1, r + 1, count) == KeptAndRest(q, kept, r, count)[kept := x]
  {
  }

  ghost predicate Embeds(f: seq<nat>, a: seq<nat>, b: seq<nat>) {
    && |f| == |a|
    && (forall i, j :: 0 <= i < j < |f| ==> f[i] < f[j])
    && forall i :: 0 <= i < |f| ==> f[i] < |b| && b[f[i]] == a[i]
  }

  /** a is b with some entries taken out, the order kept. */
  ghost predicate Subsequence(a: seq<nat>, b: seq<nat>) {
    exists f: seq<nat> :: Embeds(f, a, b)
  }

  lemma SubsequenceRefl(a: seq<nat>)
    ensures Subsequence(a, a)
  {
    assert Embeds(seq(|a|, i requires 0 <= i => i), a, a);
  }

  lemma SubsequenceMembers(a: seq<nat>, b: seq<nat>)
    requires Subsequence(a, b)
    ensures forall x :: x in a ==> x in b
  {
    var f :| Embeds(f, a, b);
    forall i | 0 <= i < |a|
      ensures a[i] in b
    {
      assert b[f[i]] == a[i];
    }
  }

  lemma SubsequenceTrans(a: seq<nat>, b: seq<nat>, c: seq<nat>)
    requires Subsequence(a, b) && Subsequence(b, c)
    ensures Subsequence(a, c)
  {
    var f :| Embeds(f, a, b);
    var g :| Embeds(g, b, c);
    var h := seq(|f|, i requires 0 <= i < |f| => g[f[i]]);
    assert Embeds(h, a, c);
  }

  lemma DropFromSubsequence(a: seq<nat>, b: seq<nat>, k: nat)
    requires Subsequence(a, b) && k < |a|
    ensures Subsequence(RemoveAt(a, k), b)
  {
    var f :| Embeds(f, a, b);
    assert Embeds(RemoveAt(f, k), RemoveAt(a, k), b);
  }

  lemma WaitingEnds(q: seq<nat>, kept: nat, count: nat)
    requires kept <= count <= |q|
    ensures KeptAndRest(q, 0, 0, count) == q[..count]
    ensures KeptAndRest(q, kept, count, count) == q[..kept]
  {
  }
}
