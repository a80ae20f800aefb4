/** The sequence-number layout of a transfer: groups of seven data fragments and one parity
    fragment, with a trailing partial group that has no parity. The literals 7 and 8 below
    are the FEC group size and that size plus one. */
module Layout {
  import opened Bytes

  /** 1462 payload bytes rounded down to a multiple of 8. */
  const TRANSFER_FRAGMENT_SIZE := 1456
  const SD_MAX_FILE_SIZE := 10 * 1024 * 1024
  const CONGESTION_FLAG := 0x8000

  function DataFragments(size: nat, cs: nat): nat
    requires cs > 0
  {
    (size + cs - 1) / cs
  }

  function FragmentCount(dataFrags: nat): nat {
    dataFrags / 7 * 8 + dataFrags % 7
  }

  predicate IsParity(s: nat) {
    s % 8 == 7
  }

  function DataIndex(s: nat): nat {
    s / 8 * 7 + s % 8
  }

  function SeqOf(d: nat): nat {
    d / 7 * 8 + d % 7
  }

  /** The bytes of data fragment d. */
  function Chunk(file: seq<byte>, cs: nat, d: nat): seq<byte>
    requires cs > 0
  {
    var start := d * cs;
    if start >= |file| then []
    else if |file| - start < cs then file[start..]
    else file[start..start + cs]
  }

  /** The data fragment that byte k belongs to. */
  function FragmentOf(cs: nat, k: nat): nat
    requires cs > 0
  {
    k / cs
  }

  /** The seven data fragments of FEC group g. */
  function Group(file: seq<byte>, cs: nat, g: nat): seq<seq<byte>>
    requires cs > 0
  {
    seq(7, i requires 0 <= i => Chunk(file, cs, g * 7 + i))
  }

  /** What a sender transmits under sequence number s; without FEC the sequence number is
      the data index itself. */
  function Payload(file: seq<byte>, cs: nat, fec: bool, s: nat): seq<byte>
    requires cs > 0
  {
    if !fec then Chunk(file, cs, s)
    else if IsParity(s) then Parity(Group(file, cs, s / 8))
    else Chunk(file, cs, DataIndex(s))
  }

  /** The last sequence number plus one; with FEC, the advertised count includes parity. */
  function Total(size: nat, cs: nat, fec: bool): nat
    requires cs > 0
  {
    if fec then FragmentCount(DataFragments(size, cs)) else DataFragments(size, cs)
  }

  /** data is what the layout of the file assigns to number s. */
  ghost predicate Assigned(file: seq<byte>, s: nat, data: seq<byte>) {
    s < Total(|file|, TRANSFER_FRAGMENT_SIZE, true) && data == Payload(file, TRANSFER_FRAGMENT_SIZE, true, s)
  }

  // ---- The layout is a bijection ----

  lemma SeqOfInverse(d: nat)
    ensures DataIndex(SeqOf(d)) == d && !IsParity(SeqOf(d))
  {
    var q, r := d / 7, d % 7;
    assert SeqOf(d) == q * 8 + r;
    assert SeqOf(d) / 8 == q && SeqOf(d) % 8 == r;
  }

  lemma DataIndexInverse(s: nat)
    requires !IsParity(s)
    ensures SeqOf(DataIndex(s)) == s
  {
    var q, r := s / 8, s % 8;
    assert DataIndex(s) == q * 7 + r && r < 7;
    assert DataIndex(s) / 7 == q && DataIndex(s) % 7 == r;
  }

  /** The advertised sequence numbers are exactly the data fragments of the file and the
      parities of its full groups: no sequence number is a phantom, no fragment is left out. */
  lemma CountCoversExactly(dataFrags: nat, s: nat)
    ensures !IsParity(s) ==> (s < FragmentCount(dataFrags) <==> DataIndex(s) < dataFrags)
    ensures IsParity(s) ==>
              (s < FragmentCount(dataFrags) <==> (s / 8 + 1) * 7 <= dataFrags)
  {
    var full, rest := dataFrags / 7, dataFrags % 7;
    var q, r := s / 8, s % 8;
    assert dataFrags == full * 7 + rest && s == q * 8 + r;
  }

  /** The cloud recognises FEC by the count alone; the test is exact. */
  lemma FecDetectedIffFullGroup(dataFrags: nat)
    ensures FragmentCount(dataFrags) > dataFrags <==> dataFrags >= 7
  {
  }

  /** With fewer than seven data fragments the two layouts coincide. */
  lemma SmallFilesNeedNoFec(file: seq<byte>, cs: nat, s: nat)
    requires cs > 0 && DataFragments(|file|, cs) < 7 && s < 7
    ensures Payload(file, cs, true, s) == Payload(file, cs, false, s)
    ensures Total(|file|, cs, true) == Total(|file|, cs, false)
  {
  }

  /** For every file the SD card accepts, neither 16-bit cast in the sender truncates, the
      wrap-around guard never fires and the congestion bit stays clear. */
  lemma CountsFitSixteenBits(size: nat)
    requires size <= SD_MAX_FILE_SIZE
    ensures DataFragments(size, TRANSFER_FRAGMENT_SIZE) < 0x1_0000
    ensures Total(size, TRANSFER_FRAGMENT_SIZE, true) < CONGESTION_FLAG
  {
    var d := DataFragments(size, TRANSFER_FRAGMENT_SIZE);
    assert d * TRANSFER_FRAGMENT_SIZE <= size + TRANSFER_FRAGMENT_SIZE - 1;
    assert d <= 7203;
    assert FragmentCount(d) <= 8 * (d / 7) + 6;
  }

  /** The sender's fragment count, with its casts to 16 bits. */
  function SenderCount(size: nat): nat {
    var dataFrags := DataFragments(size, TRANSFER_FRAGMENT_SIZE) % 0x1_0000;
    (dataFrags / 7 * 8 + dataFrags % 7) % 0x1_0000
  }

  lemma SenderCountExact(size: nat)
    requires size <= SD_MAX_FILE_SIZE
    ensures SenderCount(size) == Total(size, TRANSFER_FRAGMENT_SIZE, true) < CONGESTION_FLAG
  {
    hide DataFragments;
    CountsFitSixteenBits(size);
  }

  // ---- Chunks partition the file ----

  lemma MulMono(a: nat, b: nat, cs: nat)
    requires a <= b
    ensures a * cs <= b * cs
  {
  }

  lemma FragmentBounds(size: nat, cs: nat, d: nat)
    requires cs > 0
    ensures d < DataFragments(size, cs) <==> d * cs < size
  {
    var n := DataFragments(size, cs);
    assert n * cs <= size + cs - 1 < n * cs + cs by {
      assert (size + cs - 1) == n * cs + (size + cs - 1) % cs;
    }
    if d < n {
      MulMono(d + 1, n, cs);
      assert (d + 1) * cs == d * cs + cs;
    } else {
      MulMono(n, d, cs);
    }
  }

  lemma ChunkShape(file: seq<byte>, cs: nat, d: nat)
    requires cs > 0 && d < DataFragments(|file|, cs)
    ensures d * cs < |file|
    ensures 0 < |Chunk(file, cs, d)| <= cs
    ensures d * cs + |Chunk(file, cs, d)| <= |file|
    ensures d + 1 < DataFragments(|file|, cs) ==> |Chunk(file, cs, d)| == cs
    ensures Chunk(file, cs, d) == file[d * cs..d * cs + |Chunk(file, cs, d)|]
  {
    FragmentBounds(|file|, cs, d);
    FragmentBounds(|file|, cs, d + 1);
    assert (d + 1) * cs == d * cs + cs;
  }

  lemma ByteLivesIn(size: nat, cs: nat, k: nat)
    requires cs > 0 && k < size
    ensures k / cs < DataFragments(size, cs)
    ensures k / cs * cs <= k < k / cs * cs + cs
  {
    var d := k / cs;
    assert k == d * cs + k % cs;
    FragmentBounds(size, cs, d);
  }

  lemma ChunksDisjoint(cs: nat, k: nat, d: nat)
    requires cs > 0
    ensures d * cs <= k < d * cs + cs <==> k / cs == d
  {
    assert k == k / cs * cs + k % cs;
    if d < k / cs {
      MulMono(d + 1, k / cs, cs);
      assert (d + 1) * cs == d * cs + cs;
    } else if k / cs < d {
      MulMono(k / cs + 1, d, cs);
      assert (k / cs + 1) * cs == k / cs * cs + cs;
    }
  }

  /** Every member of a full group but possibly the file's last one has full length, so the
      parity is as long as a full fragment. */
  lemma ParityShape(file: seq<byte>, cs: nat, g: nat)
    requires cs > 0 && (g + 1) * 7 <= DataFragments(|file|, cs)
    ensures |Parity(Group(file, cs, g))| == cs
    ensures forall i :: 0 <= i < 7 ==> 0 < |Group(file, cs, g)[i]| <= cs
  {
    var group := Group(file, cs, g);
    forall i | 0 <= i < 7
      ensures 0 < |group[i]| <= cs
    {
      ChunkShape(file, cs, g * 7 + i);
    }
    ChunkShape(file, cs, g * 7);
    MaxLenBounds(group, 0);
    MaxLenLeast(group, cs);
  }

  // ---- Progress accounting ----

  function DataFragmentsBefore(localExit: bool, s: nat): nat {
    if localExit then s
    else
      var rem := s % 8;
      s / 8 * 7 + if rem > 7 then 7 else rem
  }

  function BytesFromSeqProgress(size: nat, cs: nat, localExit: bool, s: nat): nat {
    var bytes := DataFragmentsBefore(localExit, s) * cs;
    if bytes > size then size else bytes
  }

  /** Number of data bytes carried by the sequence numbers below s. */
  function BytesBelow(file: seq<byte>, cs: nat, fec: bool, s: nat): nat
    requires cs > 0
  {
    if s == 0 then 0
    else
      var below := BytesBelow(file, cs, fec, s - 1);
      if fec && IsParity(s - 1) then below else below + |Payload(file, cs, fec, s - 1)|
  }

  lemma BeforeStep(localExit: bool, s: nat)
    ensures DataFragmentsBefore(localExit, s + 1) ==
            DataFragmentsBefore(localExit, s) + (if !localExit && IsParity(s) then 0 else 1)
    ensures localExit ==> DataFragmentsBefore(localExit, s) == s
    ensures !localExit && !IsParity(s) ==> DataFragmentsBefore(localExit, s) == DataIndex(s)
  {
    if !localExit {
      var q, r := s / 8, s % 8;
      assert s == q * 8 + r;
      assert r < 7 ==> (s + 1) / 8 == q && (s + 1) % 8 == r + 1;
      assert r == 7 ==> (s + 1) / 8 == q + 1 && (s + 1) % 8 == 0;
    }
  }

  lemma OneMoreChunk(file: seq<byte>, cs: nat, d: nat)
    requires cs > 0 && d < DataFragments(|file|, cs)
    ensures d * cs < |file|
    ensures (if (d + 1) * cs > |file| then |file| else (d + 1) * cs) == d * cs + |Chunk(file, cs, d)|
  {
    ChunkShape(file, cs, d);
    FragmentBounds(|file|, cs, d + 1);
    assert (d + 1) * cs == d * cs + cs;
  }

  lemma ProgressStep(file: seq<byte>, cs: nat, localExit: bool, s: nat)
    requires cs > 0 && s < Total(|file|, cs, !localExit)
    ensures BytesFromSeqProgress(|file|, cs, localExit, s + 1) ==
            BytesFromSeqProgress(|file|, cs, localExit, s) +
            (if !localExit && IsParity(s) then 0 else |Payload(file, cs, !localExit, s)|)
  {
    BeforeStep(localExit, s);
    if localExit || !IsParity(s) {
      var d := DataFragmentsBefore(localExit, s);
      if !localExit {
        CountCoversExactly(DataFragments(|file|, cs), s);
      }
      assert Payload(file, cs, !localExit, s) == Chunk(file, cs, d);
      OneMoreChunk(file, cs, d);
    }
  }

  lemma NoProgressAtStart(size: nat, cs: nat, localExit: bool)
    ensures BytesFromSeqProgress(size, cs, localExit, 0) == 0
  {
    assert DataFragmentsBefore(localExit, 0) * cs == 0;
  }

  /** The progress figure counts exactly the file bytes carried so far. */
  lemma {:induction false} ProgressCountsBytes(file: seq<byte>, cs: nat, localExit: bool, s: nat)
    requires cs > 0 && s <= Total(|file|, cs, !localExit)
    ensures BytesFromSeqProgress(|file|, cs, localExit, s) == BytesBelow(file, cs, !localExit, s)
  {
    hide Payload, Total, BytesFromSeqProgress;
    if s == 0 {
      NoProgressAtStart(|file|, cs, localExit);
    } else {
      ProgressCountsBytes(file, cs, localExit, s - 1);
      ProgressStep(file, cs, localExit, s - 1);
    }
  }
}
