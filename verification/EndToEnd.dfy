/** The round trip: what the node's transfer engine puts on the air, delivered in any order
    with any losses and duplicates, is reassembled by the cloud service. */
module EndToEnd {
  import opened Bytes
  import opened Layout
  import opened Assembly
  import opened MeshSender
  import opened Reassembly
  import opened OutOfWindowRetransmission
  import LocalExit

  function Numbers(arrivals: seq<(nat, seq<byte>)>): (n: seq<nat>)
    ensures |n| == |arrivals| && forall i :: 0 <= i < |n| ==> n[i] == arrivals[i].0
  {
    seq(|arrivals|, i requires 0 <= i < |arrivals| => arrivals[i].0)
  }

  /** Everything that can reach the cloud: what the windows sent and what the
      out-of-window queue re-sent, whatever the exit it went through. */
  ghost function OnTheAir(wire: seq<(nat, seq<byte>)>, oow: seq<(nat, nat, seq<byte>)>): (air: seq<(nat, seq<byte>)>)
    ensures forall p :: p in air ==> p in wire || exists q :: q in oow && p == (q.1, q.2)
  {
    wire + seq(|oow|, k requires 0 <= k < |oow| => (oow[k].1, oow[k].2))
  }

  /** Both sending paths carry only what the layout assigns. */
  lemma AirIsGenuine(e: TransferEngine, q: OutOfWindowQueue)
    requires e.Valid() && AllAssigned(e.transfer.file, q.wire)
    ensures AsLaidOut(e.transfer.file, true, OnTheAir(e.windows.wire, q.wire))
  {
    hide Payload, Total;
  }

  /** Every packet carries the payload that the layout, with or without parity, gives its number. */
  ghost predicate AsLaidOut(file: seq<byte>, mesh: bool, packets: seq<(nat, seq<byte>)>) {
    forall p :: p in packets ==> p.1 == Payload(file, TRANSFER_FRAGMENT_SIZE, mesh, p.0)
  }

  /** A node that is its own exit hands over the fragments of the layout without parity. */
  lemma LocalIsGenuine(e: LocalExit.LocalExitArq)
    requires e.Valid()
    ensures AsLaidOut(e.file, false, e.wire) && e.count == Total(|e.file|, TRANSFER_FRAGMENT_SIZE, false)
  {
    hide Payload, Total;
  }

  /** The running encoder and the rebuild from the file agree at a parity slot when all reads
      succeed; after failed reads, iff what was not read cancels out. */
  lemma IncrementalParityIsRebuilt(file: seq<byte>, s: nat, ok: seq<bool>)
    requires s < Total(|file|, TRANSFER_FRAGMENT_SIZE, true) && IsParity(s) && |ok| == 7
    ensures var group := Group(file, TRANSFER_FRAGMENT_SIZE, s / 8);
            && Parity(GroupSoFar(file, s)) == Payload(file, TRANSFER_FRAGMENT_SIZE, true, s)
            && ((forall i :: 0 <= i < 7 ==> ok[i]) ==> Parity(Seen(group, ok)) == Parity(GroupSoFar(file, s)))
            && (Parity(Seen(group, ok)) == Parity(GroupSoFar(file, s)) <==>
                && (exists i :: 0 <= i < 7 && |Seen(group, ok)[i]| == TRANSFER_FRAGMENT_SIZE)
                && XorIsZero(Unread(group, ok), TRANSFER_FRAGMENT_SIZE))
  {
    hide XorAt, MaxLen;
    var group := Group(file, TRANSFER_FRAGMENT_SIZE, s / 8);
    CountCoversExactly(DataFragments(|file|, TRANSFER_FRAGMENT_SIZE), s);
    ParityShape(file, TRANSFER_FRAGMENT_SIZE, s / 8);
    ChunkShape(file, TRANSFER_FRAGMENT_SIZE, s / 8 * 7);
    GroupCloses(file, s);
    FailedReadsHarmlessIff(group, TRANSFER_FRAGMENT_SIZE, ok);
    if forall i :: 0 <= i < 7 ==> ok[i] {
      assert Seen(group, ok) == group;
    }
  }

  /** With or without FEC in force, a packet as laid out is what the reassembler expects. */
  lemma LaidOutIsExpected(file: seq<byte>, count: nat, mesh: bool, s: nat)
    requires count == Total(|file|, TRANSFER_FRAGMENT_SIZE, mesh) && s < count
    ensures var fec := count > DataFragments(|file|, TRANSFER_FRAGMENT_SIZE);
            Payload(file, TRANSFER_FRAGMENT_SIZE, mesh, s) == Payload(file, TRANSFER_FRAGMENT_SIZE, fec, s)
  {
    FecDetectedIffFullGroup(DataFragments(|file|, TRANSFER_FRAGMENT_SIZE));
    if mesh && DataFragments(|file|, TRANSFER_FRAGMENT_SIZE) < 7 {
      SmallFilesNeedNoFec(file, TRANSFER_FRAGMENT_SIZE, s);
    }
  }

  /** For a file too small for parity, the two loss conditions say the same. */
  lemma SmallFilesNeedEverything(dataFrags: nat, d: set<nat>)
    requires dataFrags < 7
    ensures EnoughArrived(dataFrags, true, d) <==> EnoughArrived(dataFrags, false, d)
  {
  }

  /** The final state as a function of the set of delivered numbers, and when it is complete. */
  lemma OutcomeOfDelivery(file: seq<byte>, count: nat, mesh: bool, seqs: seq<nat>)
    requires count == Total(|file|, TRANSFER_FRAGMENT_SIZE, mesh)
    ensures var dataFrags := DataFragments(|file|, TRANSFER_FRAGMENT_SIZE);
            var fec := count > dataFrags;
            && DeliverAll(count, fec, seqs) == Closure(count, fec, Elements(seqs))
            && (HoldsAllData(dataFrags, fec, DeliverAll(count, fec, seqs)) <==> EnoughArrived(dataFrags, mesh, Elements(seqs)))
  {
    var dataFrags := DataFragments(|file|, TRANSFER_FRAGMENT_SIZE);
    var fec := count > dataFrags;
    FecDetectedIffFullGroup(dataFrags);
    OrderIndependent(count, fec, seqs);
    CompleteIffEnoughArrived(dataFrags, fec, Elements(seqs));
    if mesh && !fec {
      SmallFilesNeedEverything(dataFrags, Elements(seqs));
    }
  }

  /** One transfer received by the cloud, over the mesh with parity or from a node that is its
      own exit without. It completes exactly when no full group lost more than one fragment and
      the trailing group none, or, without parity, when nothing was lost; and then the buffer is
      the file. */
  method ReceiveTransfer(ghost file: seq<byte>, size: nat, count: nat, ghost mesh: bool, arrivals: seq<(nat, seq<byte>)>,
                         ghost air: seq<(nat, seq<byte>)>)
    returns (r: FileReassembler, complete: bool)
    requires size == |file| && count == Total(size, TRANSFER_FRAGMENT_SIZE, mesh)
    requires AsLaidOut(file, mesh, air) && forall i :: 0 <= i < |arrivals| ==> arrivals[i] in air
    ensures fresh(r.repr) && r.Valid()
    ensures r.received == Closure(count, r.FecActive(), Elements(Numbers(arrivals)))
    ensures r.buffer[..] == Assembled(file, TRANSFER_FRAGMENT_SIZE, r.FecActive(), r.received)
    ensures complete <==> EnoughArrived(DataFragments(size, TRANSFER_FRAGMENT_SIZE), mesh, Elements(Numbers(arrivals)))
    ensures complete ==> r.buffer[..] == file
  {
    hide Total, DataFragments, Payload, FileReassembler.Agrees, Deliver, Closure;
    CountsAgree(file, count, mesh);
    r := new FileReassembler(file, size, count, TRANSFER_FRAGMENT_SIZE);
    ghost var seqs := Numbers(arrivals);
    for i := 0 to |arrivals|
      invariant fresh(r.repr) && r.Valid()
      invariant r.received == DeliverAll(count, r.FecActive(), seqs[..i])
    {
      if arrivals[i].0 < count {
        LaidOutIsExpected(file, count, mesh, arrivals[i].0);
      }
      var isNew := r.WriteChunk(arrivals[i].0, arrivals[i].1);
      assert seqs[..i + 1][..i] == seqs[..i];
    }
    assert seqs[..|arrivals|] == seqs;
    OutcomeOfDelivery(file, count, mesh, seqs);
    complete := r.IsComplete();
    BufferShows(r);
  }

  lemma CountsAgree(file: seq<byte>, count: nat, mesh: bool)
    requires count == Total(|file|, TRANSFER_FRAGMENT_SIZE, mesh)
    ensures count == Total(|file|, TRANSFER_FRAGMENT_SIZE, count > DataFragments(|file|, TRANSFER_FRAGMENT_SIZE))
  {
    FecDetectedIffFullGroup(DataFragments(|file|, TRANSFER_FRAGMENT_SIZE));
  }

  lemma BufferShows(r: FileReassembler)
    requires r.Valid()
    ensures r.buffer[..] == Assembled(r.file, r.chunkSize, r.FecActive(), r.received)
  {
  }
}
