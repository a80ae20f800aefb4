/** Byte strings and their XOR, with the zero padding that the FEC codec relies on. */
module Bytes {

  type byte = bv8

  /** The most that a packet on the mesh can carry. */
  const MAX_MTU := 1470

  /** Byte j of s, reading zeros past its end. */
  function At(s: seq<byte>, j: nat): byte {
    if j < |s| then s[j] else 0
  }

  /** Byte j of the XOR of all fragments, shorter ones zero-padded. */
  function XorAt(frags: seq<seq<byte>>, j: nat): byte {
    if frags == [] then 0
    else XorAt(frags[..|frags| - 1], j) ^ At(frags[|frags| - 1], j)
  }

  function MaxLen(frags: seq<seq<byte>>): nat {
    if frags == [] then 0
    else
      var rest := MaxLen(frags[..|frags| - 1]);
      if |frags[|frags| - 1]| > rest then |frags[|frags| - 1]| else rest
  }

  /** The parity fragment of a group. */
  function Parity(frags: seq<seq<byte>>): seq<byte> {
    seq(MaxLen(frags), j requires 0 <= j => XorAt(frags, j))
  }

  /** The XOR of the first n fragments with one index left out. */
  function XorSkip(frags: seq<seq<byte>>, skip: int, n: nat, j: nat): byte
    requires n <= |frags|
  {
    if n == 0 then 0
    else if n - 1 == skip then XorSkip(frags, skip, n - 1, j)
    else XorSkip(frags, skip, n - 1, j) ^ At(frags[n - 1], j)
  }

  lemma {:induction false} MaxLenBounds(frags: seq<seq<byte>>, i: nat)
    requires i < |frags|
    ensures |frags[i]| <= MaxLen(frags)
  {
    if i < |frags| - 1 {
      MaxLenBounds(frags[..|frags| - 1], i);
    }
  }

  /** MaxLen is attained: no padding beyond the longest fragment. */
  lemma {:induction false} MaxLenLeast(frags: seq<seq<byte>>, bound: nat)
    requires forall i :: 0 <= i < |frags| ==> |frags[i]| <= bound
    ensures MaxLen(frags) <= bound
  {
    if frags != [] {
      MaxLenLeast(frags[..|frags| - 1], bound);
    }
  }

  lemma {:induction false} XorAtBeyond(frags: seq<seq<byte>>, j: nat)
    requires MaxLen(frags) <= j
    ensures XorAt(frags, j) == 0
  {
    if frags != [] {
      XorAtBeyond(frags[..|frags| - 1], j);
    }
  }

  lemma {:induction false} SkipOneOf(frags: seq<seq<byte>>, skip: nat, n: nat, j: nat)
    requires n <= |frags|
    ensures XorSkip(frags, skip, n, j) ==
            XorAt(frags[..n], j) ^ (if skip < n then At(frags[skip], j) else 0)
  {
    if n > 0 {
      SkipOneOf(frags, skip, n - 1, j);
      assert frags[..n][..n - 1] == frags[..n - 1];
    }
  }

  lemma {:induction false} SameSkip(a: seq<seq<byte>>, b: seq<seq<byte>>, m: nat, n: nat, j: nat)
    requires n <= |a| && n <= |b|
    requires forall i: nat :: i < n && i != m ==> At(a[i], j) == At(b[i], j)
    ensures XorSkip(a, m, n, j) == XorSkip(b, m, n, j)
  {
    if n > 0 {
      SameSkip(a, b, m, n - 1, j);
    }
  }

  /** The single-erasure law: the parity of a group XORed with all its members but one
      gives back, byte by byte and zero-padded, the member left out. */
  lemma ErasureRecovers(frags: seq<seq<byte>>, missing: nat, j: nat)
    requires missing < |frags|
    ensures XorSkip(frags + [Parity(frags)], missing, |frags| + 1, j) == At(frags[missing], j)
  {
    var all := frags + [Parity(frags)];
    SkipOneOf(all, missing, |frags| + 1, j);
    assert all[..|frags| + 1] == all && all[..|frags|] == frags;
    if MaxLen(frags) <= j {
      XorAtBeyond(frags, j);
    }
    assert At(Parity(frags), j) == XorAt(frags, j);
  }
}
