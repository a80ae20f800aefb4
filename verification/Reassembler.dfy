/** The cloud service's file reassembler. */
module Reassembly {
  import opened Bytes
  import opened Layout
  import opened Assembly
  import opened FecDecoding
  import Bitmap

  const DEFAULT_CHUNK_SIZE := 500

  /** data stands for payload s: equal to it up to zero padding, and never longer than a fragment. */
  ghost predicate Genuine(file: seq<byte>, cs: nat, s: nat, data: seq<byte>)
    requires cs > 0
  {
    var p := Payload(file, cs, true, s);
    && |p| <= |data| <= cs
    && (IsParity(s) ==> |data| == cs)
    && forall j: nat {:trigger At(data, j)} :: At(data, j) == At(p, j)
  }

  /** The buffer after copying data to the region of fragment d, cut at the end of the buffer. */
  function Patched(buffer: seq<byte>, offset: nat, data: seq<byte>): seq<byte> {
    seq(|buffer|, k requires 0 <= k < |buffer| => if offset <= k < offset + |data| then data[k - offset] else buffer[k])
  }

  lemma AssembledData(file: seq<byte>, cs: nat, fec: bool, r: set<nat>, d: nat, data: seq<byte>)
    requires cs > 0 && d < DataFragments(|file|, cs)
    requires |Chunk(file, cs, d)| <= |data| <= cs
    requires forall j: nat {:trigger At(data, j)} :: At(data, j) == At(Chunk(file, cs, d), j)
    ensures d * cs <= |file|
    ensures Patched(Assembled(file, cs, fec, r), d * cs, data) == Assembled(file, cs, fec, r + {SeqFor(fec, d)})
  {
    var offset := d * cs;
    FragmentEnds(file, cs, d, offset);
    hide FragmentOf, SeqFor, Chunk, DataFragments;
    forall k | 0 <= k < |file|
      ensures Patched(Assembled(file, cs, fec, r), offset, data)[k] == Assembled(file, cs, fec, r + {SeqFor(fec, d)})[k]
    {
      AssembledByte(file, cs, d, offset, data, k);
      if FragmentOf(cs, k) != d {
        DifferentNumbers(fec, FragmentOf(cs, k), d);
      }
    }
  }

  lemma DifferentNumbers(fec: bool, d: nat, d': nat)
    requires d != d'
    ensures SeqFor(fec, d) != SeqFor(fec, d')
  {
    SeqOfInverse(d);
    SeqOfInverse(d');
  }

  /** Byte k lies in fragment d iff data reaches it, and there data shows it. */
  lemma AssembledByte(file: seq<byte>, cs: nat, d: nat, offset: nat, data: seq<byte>, k: nat)
    requires cs > 0 && d < DataFragments(|file|, cs) && k < |file| && offset == d * cs
    requires |Chunk(file, cs, d)| <= |data| <= cs
    requires forall j: nat {:trigger At(data, j)} :: At(data, j) == At(Chunk(file, cs, d), j)
    ensures offset <= k < offset + |data| <==> FragmentOf(cs, k) == d
    ensures offset <= k < offset + |data| ==> data[k - offset] == file[k]
  {
    FragmentEnds(file, cs, d, offset);
    ChunksDisjoint(cs, k, d);
    hide Chunk, DataFragments;
    if offset <= k < offset + cs {
      assert At(data, k - offset) == At(Chunk(file, cs, d), k - offset);
    }
  }

  /** A fragment fills its slot or ends with the file. */
  lemma FragmentEnds(file: seq<byte>, cs: nat, d: nat, offset: nat)
    requires cs > 0 && d < DataFragments(|file|, cs) && offset == d * cs
    ensures offset < |file| && offset + |Chunk(file, cs, d)| == (if offset + cs < |file| then offset + cs else |file|)
    ensures Chunk(file, cs, d) == file[offset..offset + |Chunk(file, cs, d)|]
  {
    ChunkShape(file, cs, d);
  }

  lemma AssembledParity(file: seq<byte>, cs: nat, r: set<nat>, s: nat)
    requires cs > 0 && IsParity(s)
    ensures Assembled(file, cs, true, r + {s}) == Assembled(file, cs, true, r)
  {
    forall k | 0 <= k < |file|
      ensures SeqFor(true, k / cs) != s
    {
      SeqOfInverse(k / cs);
    }
  }

  lemma HeldGrows(dataFrags: nat, fec: bool, r: set<nat>, s: nat)
    requires s !in r && s < if fec then FragmentCount(dataFrags) else dataFrags
    ensures |DataHeld(dataFrags, fec, r + {s})| ==
            |DataHeld(dataFrags, fec, r)| + if fec && IsParity(s) then 0 else 1
  {
    var before, after := DataHeld(dataFrags, fec, r), DataHeld(dataFrags, fec, r + {s});
    if fec && IsParity(s) {
      forall d: nat | d < dataFrags
        ensures d in after <==> d in before
      {
        SeqOfInverse(d);
      }
      assert after == before;
    } else {
      var d := if fec then DataIndex(s) else s;
      CountCoversExactly(dataFrags, s);
      if fec {
        DataIndexInverse(s);
        forall x: nat | x < dataFrags && SeqOf(x) == s
          ensures x == d
        {
          SeqOfInverse(x);
        }
      }
      assert after == before + {d};
    }
  }

  ghost predicate AllGenuine(file: seq<byte>, cs: nat, stored: map<nat, seq<byte>>)
    requires cs > 0
  {
    forall s :: s in stored ==> Genuine(file, cs, s, stored[s])
  }

  lemma GenuineExtended(file: seq<byte>, cs: nat, stored: map<nat, seq<byte>>, s: nat, data: seq<byte>)
    requires cs > 0 && AllGenuine(file, cs, stored) && Genuine(file, cs, s, data)
    ensures AllGenuine(file, cs, stored[s := data])
  {
  }

  ghost predicate OthersGenuine(file: seq<byte>, cs: nat, datas: seq<seq<byte>>, g: nat, m: nat)
    requires cs > 0 && |datas| == 8
  {
    forall i: nat :: i < 8 && i != m ==> Genuine(file, cs, g * 8 + i, datas[i])
  }

  /** What the decoder rebuilds from genuine chunks is the missing fragment. */
  lemma RebuiltIsGenuine(file: seq<byte>, cs: nat, datas: seq<seq<byte>>, g: nat, m: nat, s: nat, data: seq<byte>)
    requires cs > 0 && m < 7 && |datas| == 8
    requires (g + 1) * 7 <= DataFragments(|file|, cs)
    requires OthersGenuine(file, cs, datas, g, m)
    requires |datas[m]| <= cs && s == g * 8 + m
    requires Rebuilds(datas, m, data)
    ensures Genuine(file, cs, s, data)
  {
    var group := Group(file, cs, g);
    var all := group + [Parity(group)];
    ParityShape(file, cs, g);
    forall i: nat | i < 8
      ensures Payload(file, cs, true, g * 8 + i) == all[i]
    {
      assert (g * 8 + i) / 8 == g && (g * 8 + i) % 8 == i;
    }
    assert Genuine(file, cs, g * 8 + 7, datas[7]);
    MaxLenBounds(datas, 7);
    MaxLenLeast(datas, cs);
    assert |data| == cs;
    forall j: nat
      ensures At(data, j) == At(group[m], j)
    {
      if j < |data| {
        ErasureRecovers(group, m, j);
        SameSkip(datas, all, m, 8, j);
      }
    }
  }

  lemma PayloadIsGenuine(file: seq<byte>, cs: nat, s: nat)
    requires cs > 0 && s < Total(|file|, cs, true)
    ensures Genuine(file, cs, s, Payload(file, cs, true, s))
  {
    CountCoversExactly(DataFragments(|file|, cs), s);
    if IsParity(s) {
      ParityShape(file, cs, s / 8);
    } else {
      ChunkShape(file, cs, DataIndex(s));
    }
  }

  /** When recovery is due, every other member of the group is there. */
  lemma OthersStored(held: set<nat>, g: nat, s: nat)
    requires s in Repaired(held, g)
    ensures s % 8 < 7 && s == g * 8 + s % 8
    ensures forall x: nat :: InGroup(x, g) && x != s ==> x in held
  {
    forall x: nat | InGroup(x, g) && x != s
      ensures x in held
    {
      assert x !in GroupSeqs(g) - held;
    }
  }

  lemma OthersAreGenuine(file: seq<byte>, cs: nat, stored: map<nat, seq<byte>>, g: nat, m: nat)
    requires cs > 0 && AllGenuine(file, cs, stored) && m < 8
    requires forall x: nat :: InGroup(x, g) && x != g * 8 + m ==> x in stored
    ensures OthersGenuine(file, cs, Others(stored, g, m), g, m)
  {
    forall i: nat | i < 8 && i != m
      ensures Genuine(file, cs, g * 8 + i, Others(stored, g, m)[i])
    {
      assert InGroup(g * 8 + i, g);
      assert Others(stored, g, m)[i] == stored[g * 8 + i];
    }
  }

  /** The recovery that completes a group delivers the missing fragment. */
  lemma RebuiltHere(file: seq<byte>, cs: nat, stored: map<nat, seq<byte>>, g: nat, s: nat, data: seq<byte>)
    requires cs > 0 && AllGenuine(file, cs, stored)
    requires forall x :: x in stored ==> x < Total(|file|, cs, true)
    requires s in Repaired(stored.Keys, g)
    requires Rebuilds(Others(stored[s := data], g, s % 8), s % 8, data)
    ensures s < Total(|file|, cs, true) && Genuine(file, cs, s, data)
  {
    var m := s % 8;
    OthersStored(stored.Keys, g, s);
    assert (g + 1) * 7 <= DataFragments(|file|, cs) by {
      assert InGroup(g * 8 + 7, g);
      CountCoversExactly(DataFragments(|file|, cs), g * 8 + 7);
    }
    CountCoversExactly(DataFragments(|file|, cs), s);
    OthersIgnore(stored, g, m, s, data);
    OthersAreGenuine(file, cs, stored, g, m);
    RebuiltIsGenuine(file, cs, Others(stored, g, m), g, m, s, data);
  }

  /** The decoder fed only with genuine chunks hands out only genuine ones. */
  method IngestGenuine(fec: FecDecoder, s: nat, data: seq<byte>, ghost file: seq<byte>, ghost cs: nat, ghost count: nat)
    returns (rec: Option<FecRecovery>)
    requires cs > 0 && count == Total(|file|, cs, true) && s < count && s !in fec.stored
    requires fec.Valid() && AllGenuine(file, cs, fec.stored) && forall x :: x in fec.stored ==> x < count
    requires Genuine(file, cs, s, data)
    modifies fec
    ensures fec.Valid() && AllGenuine(file, cs, fec.stored)
    ensures fec.stored.Keys == Deliver(count, true, old(fec.stored.Keys), s)
    ensures fec.stored.Keys == old(fec.stored.Keys) + {s} + if rec.Some? then {rec.value.s} else {}
    ensures rec.Some? ==> rec.value.s < count && Genuine(file, cs, rec.value.s, rec.value.data)
  {
    hide FecDecoding.Abstracts, Layout.Total, Genuine, AllGenuine;
    rec := fec.Ingest(s, data, IsParity(s));
    ghost var before := old(fec.stored)[s := data];
    GenuineExtended(file, cs, old(fec.stored), s, data);
    assert before.Keys == old(fec.stored.Keys) + {s};
    if rec.Some? {
      assert rec.value.s in Repaired(before.Keys, s / 8);
      RebuiltHere(file, cs, before, s / 8, rec.value.s, rec.value.data);
      GenuineExtended(file, cs, before, rec.value.s, rec.value.data);
    }
  }

  class FileReassembler {
    const totalSize: nat
    const chunkCount: nat
    const chunkSize: nat
    const buffer: array<byte>
    const bitmap: array<byte>
    var chunksReceived: nat
    var dataChunksReceived: nat
    const fec: FecDecoder
    /** The sender's file, and the sequence numbers received or recovered so far. */
    ghost const file: seq<byte>
    ghost var received: set<nat>

    ghost const repr: set<object> := {this, buffer, bitmap, fec}

    function FecActive(): bool
      requires chunkSize > 0
    {
      chunkCount > DataFragments(totalSize, chunkSize)
    }

    /** Buffer, bitmap and counters agree with the set r. */
    ghost predicate Agrees(r: set<nat>)
      reads this, buffer, bitmap
    {
      && chunkSize > 0 && totalSize == |file| == buffer.Length
      && bitmap.Length == (chunkCount + 7) / 8
      && bitmap != buffer
      && chunkCount == Total(totalSize, chunkSize, FecActive())
      && Bitmap.Tracks(bitmap[..], chunkCount, r)
      && buffer[..] == Assembled(file, chunkSize, FecActive(), r)
      && chunksReceived == |r|
      && dataChunksReceived == |DataHeld(DataFragments(totalSize, chunkSize), FecActive(), r)|
    }

    ghost predicate Valid()
      reads this, buffer, bitmap, fec
    {
      && Agrees(received)
      && (FecActive() ==> fec.Valid() && fec.stored.Keys == received && AllGenuine(file, chunkSize, fec.stored))
    }

    constructor (ghost file: seq<byte>, totalSize: nat, chunkCount: nat, fragmentSize: int)
      requires totalSize == |file|
      requires var cs := if fragmentSize <= 0 then DEFAULT_CHUNK_SIZE else fragmentSize;
               chunkCount == Total(totalSize, cs, chunkCount > DataFragments(totalSize, cs))
      ensures Valid() && fresh(repr)
      ensures this.file == file && this.totalSize == totalSize && this.chunkCount == chunkCount
      ensures chunkSize == if fragmentSize <= 0 then DEFAULT_CHUNK_SIZE else fragmentSize
      ensures received == {}
    {
      var cs := if fragmentSize <= 0 then DEFAULT_CHUNK_SIZE else fragmentSize;
      this.totalSize, this.chunkCount, chunkSize := totalSize, chunkCount, cs;
      var b, m := new byte[totalSize](_ => 0), new byte[(chunkCount + 7) / 8](_ => 0);
      buffer, bitmap := b, m;
      chunksReceived, dataChunksReceived := 0, 0;
      fec := new FecDecoder();
      this.file, received := file, {};
      new;
      Bitmap.ZeroTracks(bitmap[..], chunkCount);
      assert buffer[..] == Assembled(file, chunkSize, FecActive(), {});
    }

    method WriteToBufferAt(dataIdx: nat, data: seq<byte>)
      requires chunkSize > 0 && buffer.Length == totalSize
      requires dataIdx * chunkSize <= totalSize
      modifies buffer
      ensures buffer[..] == Patched(old(buffer[..]), dataIdx * chunkSize, data)
    {
      var offset := dataIdx * chunkSize;
      var end := offset + |data|;
      if end > totalSize {
        end := totalSize;
      }
      forall k | offset <= k < end {
        buffer[k] := data[k - offset];
      }
    }

    /** Writes, marks and counts one chunk, received or rebuilt. */
    method Admit(s: nat, data: seq<byte>)
      requires Agrees(received) && s < chunkCount && s !in received
      requires FecActive() ==> Genuine(file, chunkSize, s, data)
      requires !FecActive() ==> data == Chunk(file, chunkSize, s)
      modifies this`chunksReceived, this`dataChunksReceived, this`received, buffer, bitmap
      ensures received == old(received) + {s} && Agrees(received) && fec.stored == old(fec.stored)
    {
      ghost var dataFrags := DataFragments(totalSize, chunkSize);
      CountCoversExactly(dataFrags, s);
      HeldGrows(dataFrags, FecActive(), received, s);
      if !FecActive() || !IsParity(s) {
        var dataIdx := if FecActive() then DataIndex(s) else s;
        if FecActive() {
          DataIndexInverse(s);
        } else {
          ChunkShape(file, chunkSize, s);
        }
        AssembledData(file, chunkSize, FecActive(), received, dataIdx, data);
        WriteToBufferAt(dataIdx, data);
        dataChunksReceived := dataChunksReceived + 1;
      } else {
        AssembledParity(file, chunkSize, received, s);
      }
      Bitmap.Set(bitmap, s, chunkCount, received);
      chunksReceived := chunksReceived + 1;
      received := received + {s};
    }

    /** One chunk of the session arrives; out-of-range and repeated ones change nothing, and
        the state reached is a function of the set of chunks held. */
    method WriteChunk(s: int, data: seq<byte>) returns (isNew: bool)
      requires Valid()
      requires 0 <= s < chunkCount ==> data == Payload(file, chunkSize, FecActive(), s)
      modifies repr
      ensures Valid()
      ensures isNew <==> 0 <= s < chunkCount && s !in old(received)
      ensures received == if s < 0 then old(received) else Deliver(chunkCount, FecActive(), old(received), s)
    {
      if s < 0 || s >= chunkCount {
        return false;
      }
      var seen := Bitmap.Test(bitmap, s, chunkCount, received);
      if seen {
        return false;
      }
      if FecActive() {
        WriteWithFec(s, data);
      } else {
        Admit(s, data);
      }
      isNew := true;
    }

    /** The FEC branch: the chunk goes to the decoder, then to the buffer, then what the
        decoder rebuilt follows it. */
    method WriteWithFec(s: nat, data: seq<byte>)
      requires Valid() && FecActive() && s < chunkCount && s !in received
      requires data == Payload(file, chunkSize, true, s)
      modifies repr
      ensures Valid()
      ensures received == Deliver(chunkCount, true, old(received), s)
    {
      hide FecDecoding.Abstracts, Layout.Total;
      PayloadIsGenuine(file, chunkSize, s);
      var rec := IngestGenuine(fec, s, data, file, chunkSize, chunkCount);
      ghost var stored := fec.stored;
      Admit(s, data);
      if rec.Some? {
        AdmitRebuilt(rec.value);
      }
      assert fec.stored == stored;
    }

    method AdmitRebuilt(rec: FecRecovery)
      requires Agrees(received) && FecActive() && rec.s < chunkCount
      requires Genuine(file, chunkSize, rec.s, rec.data)
      modifies this`chunksReceived, this`dataChunksReceived, this`received, buffer, bitmap
      ensures received == old(received) + {rec.s} && Agrees(received) && fec.stored == old(fec.stored)
    {
      var known := Bitmap.Test(bitmap, rec.s, chunkCount, received);
      if !known {
        Admit(rec.s, rec.data);
      } else {
        assert received + {rec.s} == received;
      }
    }

    method IsComplete() returns (complete: bool)
      requires Valid()
      ensures complete <==> HoldsAllData(DataFragments(totalSize, chunkSize), FecActive(), received)
      ensures complete ==> buffer[..] == file
    {
      var dataChunkCount := DataFragments(totalSize, chunkSize);
      CounterIsExact(dataChunkCount, FecActive(), received);
      complete := dataChunksReceived >= dataChunkCount;
      if complete {
        CompleteMeansEqual(file, chunkSize, FecActive(), received);
      }
    }
  }
}
