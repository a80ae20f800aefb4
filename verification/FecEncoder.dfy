/** The sender's incremental XOR encoder. */
module FecEncoding {
  import opened Bytes

  class FecEncoder {
    const parity: array<byte>
    var parityLen: nat
    var count: nat
    /** The fragments ingested since the last reset. */
    ghost var group: seq<seq<byte>>

    ghost predicate Valid()
      reads this, parity
    {
      && parity.Length == MAX_MTU
      && count == |group|
      && parityLen == MaxLen(group) <= MAX_MTU
      && forall j :: 0 <= j < MAX_MTU ==> parity[j] == XorAt(group, j)
    }

    constructor ()
      ensures Valid() && fresh(parity) && group == []
    {
      parity := new byte[MAX_MTU](_ => 0);
      parityLen, count, group := 0, 0, [];
    }

    method Reset()
      requires Valid()
      modifies this, parity
      ensures Valid() && group == []
    {
      count, parityLen, group := 0, 0, [];
      forall j | 0 <= j < MAX_MTU {
        parity[j] := 0;
      }
    }

    method Ingest(frag: seq<byte>)
      requires Valid() && |frag| <= MAX_MTU
      modifies this, parity
      ensures Valid() && group == old(group) + [frag]
    {
      if |frag| > parityLen {
        parityLen := |frag|;
      }
      ghost var was, xored := group, parity[..];
      for i := 0 to |frag|
        invariant forall j :: 0 <= j < i ==> parity[j] == xored[j] ^ frag[j]
        invariant forall j :: i <= j < MAX_MTU ==> parity[j] == xored[j]
        modifies parity
      {
        parity[i] := parity[i] ^ frag[i];
      }
      count := count + 1;
      group := group + [frag];
      assert group[..|group| - 1] == was;
      assert forall j :: 0 <= j < MAX_MTU ==> xored[j] == XorAt(was, j);
    }

    /** What parity_data() and parity_len() expose. */
    method Data() returns (p: seq<byte>)
      requires Valid()
      ensures p == Parity(group)
    {
      p := parity[..parityLen];
    }
  }
}
