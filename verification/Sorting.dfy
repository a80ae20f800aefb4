/** The insertion sort by which the sender orders a window snapshot. */
module Sorting {

  ghost predicate Sorted(s: seq<nat>) {
    forall i, j :: 0 <= i < j < |s| ==> s[i] <= s[j]
  }

  ghost predicate StrictlyAscending(s: seq<nat>) {
    forall i, j :: 0 <= i < j < |s| ==> s[i] < s[j]
  }

  lemma SwapKeepsMultiset(s: seq<nat>, i: nat, j: nat)
    requires i < |s| && j < |s|
    ensures multiset(s[i := s[j]][j := s[i]]) == multiset(s)
  {
  }

  lemma TwiceCounted(s: seq<nat>, i: nat, j: nat)
    requires i < j < |s| && s[i] == s[j]
    ensures multiset(s)[s[i]] >= 2
  {
    assert s == s[..i] + [s[i]] + s[i + 1..j] + [s[j]] + s[j + 1..];
  }

  /** A sorted listing of a set without repetition ascends strictly. */
  lemma ListingAscends(s: seq<nat>, keys: set<nat>)
    requires Sorted(s) && multiset(s) == multiset(keys)
    ensures StrictlyAscending(s)
    ensures forall x :: x in s <==> x in keys
    ensures |s| == |keys|
  {
    forall i, j | 0 <= i < j < |s|
      ensures s[i] < s[j]
    {
      if s[i] == s[j] {
        TwiceCounted(s, i, j);
      }
    }
    forall x
      ensures x in s <==> x in keys
    {
      assert x in multiset(s) <==> x in s;
    }
    assert |multiset(s)| == |s|;
  }

  lemma ListingGrows(listed: seq<nat>, keys: set<nat>, x: nat)
    requires multiset(listed) == multiset(keys) && x !in keys
    ensures multiset(listed + [x]) == multiset(keys + {x})
  {
  }

  method SortPrefix(a: array<nat>, n: nat)
    requires n <= a.Length
    modifies a
    ensures Sorted(a[..n]) && multiset(a[..n]) == old(multiset(a[..n]))
    ensures a[n..] == old(a[n..])
  {
    ghost var all := a[..n];
    SameAsItself(all);
    FewAreSorted(a[..if n == 0 then 0 else 1]);
    hide SameElements, Sorted;
    var i := 1;
    while i < n
      invariant 1 <= i && Sorted(a[..if i <= n then i else n])
      invariant SameElements(a[..n], all)
      invariant a[n..] == old(a[n..])
    {
      ghost var before := a[..n];
      Insert(a, i, n);
      SameStill(a[..n], before, all);
      i := i + 1;
    }
    SameMeans(a[..n], all);
  }

  ghost predicate SameElements(a: seq<nat>, b: seq<nat>) {
    multiset(a) == multiset(b)
  }

  /** With a gap at position j + 1 waiting for key, moving element j up moves the gap down. */
  lemma GapMoves(s: seq<nat>, j: nat, key: nat, was: seq<nat>)
    requires j + 1 < |s| && SameElements(s[j + 1 := key], was)
    ensures SameElements(s[j + 1 := s[j]][j := key], was)
  {
    var t := s[j + 1 := key];
    SwapKeepsMultiset(t, j, j + 1);
    assert s[j + 1 := s[j]][j := key] == t[j := t[j + 1]][j + 1 := t[j]];
  }

  /** s[..i + 1] is sorted but for the gap at position g, and key is below all behind it. */
  ghost predicate SortedAround(s: seq<nat>, i: nat, g: nat, key: nat)
    requires g <= i < |s|
  {
    && (forall x, y :: 0 <= x < y <= i && x != g && y != g ==> s[x] <= s[y])
    && (forall x :: g < x <= i ==> key < s[x])
  }

  lemma SortedAroundMoves(s: seq<nat>, i: nat, j: nat, key: nat)
    requires j + 1 <= i < |s| && SortedAround(s, i, j + 1, key) && s[j] > key
    ensures SortedAround(s[j + 1 := s[j]], i, j, key)
  {
  }

  /** Shifts the larger part of the sorted prefix up and drops element i into the gap. */
  method Insert(a: array<nat>, i: nat, n: nat)
    requires i < n <= a.Length && Sorted(a[..i])
    modifies a
    ensures Sorted(a[..i + 1]) && SameElements(a[..n], old(a[..n])) && a[n..] == old(a[n..])
  {
    hide SortedAround, SameElements, Sorted;
    var key := a[i];
    var j := i - 1;
    ghost var s := a[..n];
    ghost var was, tail := s, a[n..];
    assert s[i := key] == s;
    SameAsItself(s);
    assert a[..i] == s[..i];
    GapAtTop(s, i, key);
    while j >= 0 && a[j] > key
      invariant -1 <= j < i && |s| == n
      invariant forall k :: 0 <= k < a.Length ==> a[k] == if k < n then s[k] else tail[k - n]
      invariant SortedAround(s, i, j + 1, key)
      invariant SameElements(s[j + 1 := key], was)
    {
      GapMoves(s, j, key, was);
      SortedAroundMoves(s, i, j, key);
      a[j + 1] := a[j];
      s := s[j + 1 := s[j]];
      j := j - 1;
    }
    Closed(s, i, j + 1, key);
    a[j + 1] := key;
    s := s[j + 1 := key];
    Slices(a, n, i + 1, s, tail);
  }

  lemma SameAsItself(s: seq<nat>)
    ensures SameElements(s, s)
  {
  }

  lemma SameStill(a: seq<nat>, b: seq<nat>, c: seq<nat>)
    requires SameElements(a, b) && SameElements(b, c)
    ensures SameElements(a, c)
  {
  }

  lemma FewAreSorted(s: seq<nat>)
    requires |s| <= 1
    ensures Sorted(s)
  {
  }

  lemma SameMeans(a: seq<nat>, b: seq<nat>)
    requires SameElements(a, b)
    ensures multiset(a) == multiset(b)
  {
  }

  lemma Slices(a: array<nat>, n: nat, m: nat, s: seq<nat>, tail: seq<nat>)
    requires m <= n == |s| && a.Length == n + |tail|
    requires forall k :: 0 <= k < a.Length ==> a[k] == if k < n then s[k] else tail[k - n]
    ensures a[..n] == s && a[..m] == s[..m] && a[n..] == tail
  {
  }

  lemma GapAtTop(s: seq<nat>, i: nat, key: nat)
    requires i < |s| && Sorted(s[..i])
    ensures SortedAround(s, i, i, key)
  {
    forall x, y | 0 <= x < y < i
      ensures s[x] <= s[y]
    {
      assert s[..i][x] <= s[..i][y];
    }
  }

  lemma Closed(s: seq<nat>, i: nat, g: nat, key: nat)
    requires g <= i < |s| && SortedAround(s, i, g, key) && (g == 0 || s[g - 1] <= key)
    ensures Sorted(s[g := key][..i + 1])
  {
  }
}
