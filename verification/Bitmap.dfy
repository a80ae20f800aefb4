/** The packed bitmaps shared by the firmware and the cloud service: bit k lives in byte
    k / 8 under mask 1 << (k % 8). */
module Bitmap {

  /** 1 << i, as a table. */
  function Mask(i: nat): bv8
    requires i < 8
  {
    if i == 0 then 0x01 else if i == 1 then 0x02 else if i == 2 then 0x04 else if i == 3 then 0x08
    else if i == 4 then 0x10 else if i == 5 then 0x20 else if i == 6 then 0x40 else 0x80
  }

  predicate Bit(b: seq<bv8>, k: nat)
    requires k / 8 < |b|
  {
    b[k / 8] & Mask(k % 8) != 0
  }

  /** b holds exactly the members of s among the first n bits. */
  ghost predicate Tracks(b: seq<bv8>, n: nat, s: set<nat>) {
    && n <= 8 * |b|
    && (forall k :: k in s ==> k < n)
    && forall k: nat :: k < n ==> (Bit(b, k) <==> k in s)
  }

  function With(b: seq<bv8>, k: nat): seq<bv8>
    requires k / 8 < |b|
  {
    b[k / 8 := b[k / 8] | Mask(k % 8)]
  }

  function Without(b: seq<bv8>, k: nat): seq<bv8>
    requires k / 8 < |b|
  {
    b[k / 8 := b[k / 8] & !Mask(k % 8)]
  }

  lemma MaskedOr(x: bv8, i: nat, j: nat)
    requires i < 8 && j < 8
    ensures (x | Mask(i)) & Mask(j) != 0 <==> i == j || x & Mask(j) != 0
  {
    if i == j {
    } else {
      assert Mask(i) & Mask(j) == 0;
    }
  }

  lemma MaskedAndNot(x: bv8, i: nat, j: nat)
    requires i < 8 && j < 8
    ensures (x & !Mask(i)) & Mask(j) != 0 <==> i != j && x & Mask(j) != 0
  {
    if i == j {
    } else {
      assert Mask(i) & Mask(j) == 0;
    }
  }

  lemma WithTracks(b: seq<bv8>, n: nat, s: set<nat>, k: nat)
    requires Tracks(b, n, s) && k < n
    ensures Tracks(With(b, k), n, s + {k})
  {
    forall m: nat | m < n
      ensures Bit(With(b, k), m) <==> m in s + {k}
    {
      assert Bit(b, m) <==> m in s;
      if m / 8 == k / 8 {
        MaskedOr(b[k / 8], k % 8, m % 8);
      }
    }
  }

  lemma WithoutTracks(b: seq<bv8>, n: nat, s: set<nat>, k: nat)
    requires Tracks(b, n, s) && k < n
    ensures Tracks(Without(b, k), n, s - {k})
  {
    forall m: nat | m < n
      ensures Bit(Without(b, k), m) <==> m in s - {k}
    {
      assert Bit(b, m) <==> m in s;
      if m / 8 == k / 8 {
        MaskedAndNot(b[k / 8], k % 8, m % 8);
      }
    }
  }

  lemma ZeroTracks(b: seq<bv8>, n: nat)
    requires n <= 8 * |b| && forall i :: 0 <= i < |b| ==> b[i] == 0
    ensures Tracks(b, n, {})
  {
    forall m: nat | m < n
      ensures !Bit(b, m)
    {
      assert b[m / 8] == 0;
    }
  }

  method Set(a: array<bv8>, k: nat, ghost n: nat, ghost s: set<nat>)
    requires Tracks(a[..], n, s) && k < n
    modifies a
    ensures a[..] == With(old(a[..]), k) && Tracks(a[..], n, s + {k})
  {
    WithTracks(a[..], n, s, k);
    a[k / 8] := a[k / 8] | Mask(k % 8);
  }

  method Clear(a: array<bv8>, k: nat, ghost n: nat, ghost s: set<nat>)
    requires Tracks(a[..], n, s) && k < n
    modifies a
    ensures a[..] == Without(old(a[..]), k) && Tracks(a[..], n, s - {k})
  {
    WithoutTracks(a[..], n, s, k);
    a[k / 8] := a[k / 8] & !Mask(k % 8);
  }

  method Test(a: array<bv8>, k: nat, ghost n: nat, ghost s: set<nat>) returns (set_: bool)
    requires Tracks(a[..], n, s) && k < n
    ensures set_ <==> k in s
  {
    assert Bit(a[..], k) <==> k in s;
    set_ := a[k / 8] & Mask(k % 8) != 0;
  }
}
