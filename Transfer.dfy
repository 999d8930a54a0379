/**
 * The two sides together: the packets the sender splits a file into,
 * serialized, delivered to the receiver in any order and any number of
 * times, followed by FINISH, are reassembled into exactly the file; and
 * the ACKs the receiver sends back mark exactly the delivered packets on
 * the sender.
 */
module Transfer {
  import opened Bytes
  import opened Wrappers
  import opened Packets
  import opened Client
  import opened Server

  /** The first four bytes of FINISH read as a file id: the one id whose frames could be taken for FINISH. */
  const FINISH_FILE_ID: u32 := 0x46494E49

  /** Every entry of `order` names a packet of `ps`. */
  predicate Indexes(order: seq<nat>, ps: seq<Packet>)
  {
    forall j :: 0 <= j < |order| ==> order[j] < |ps|
  }

  /** The frames of `ps` as they arrive: the one for `ps[order[j]]` is the `j`-th datagram. */
  function Delivered(ps: seq<Packet>, order: seq<nat>): (ds: seq<seq<byte>>)
    requires Indexes(order, ps)
    ensures |ds| == |order|
  {
    if order == [] then []
    else Delivered(ps, order[..|order| - 1]) + [Serialize(ps[order[|order| - 1]])]
  }

  /** The ACKs for the packet numbers in `order`, in that order. */
  function AcksFor(order: seq<nat>): seq<seq<byte>>
    requires forall j :: 0 <= j < |order| ==> order[j] <= U32_MAX
  {
    if order == [] then []
    else AcksFor(order[..|order| - 1]) + [U32ToBE(order[|order| - 1])]
  }

  /** Every packet of a split file carries at most PACKET_SIZE bytes and the transfer's file id. */
  lemma SplitChunks(buffer: seq<byte>, fileId: u32)
    ensures forall i :: 0 <= i < |Split(buffer, fileId)| ==>
              |Split(buffer, fileId)[i].payload| <= PACKET_SIZE
  {
  }

  /**
   * What the receiver holds after the frames of `ps` have arrived in the
   * order `order`: nothing was taken for FINISH, every frame was ACKed
   * with its number, exactly the delivered numbers are stored, each under
   * its own packet, and the total and id come from the packets.
   */
  predicate HoldsDelivered(ps: seq<Packet>, fileId: u32, order: seq<nat>, s: Session)
    requires Indexes(order, ps)
    requires |ps| <= U32_MAX
  {
    && !s.finished
    && s.acks == AcksFor(order)
    && (forall n: u32 :: n in s.state.received <==> n as nat in order)
    && (forall n :: n in s.state.received ==> s.state.received[n] == ps[n])
    && (order == [] ==> s.state == Initial)
    && (order != [] ==> s.state.expectedTotal == Some(|ps| as u32) && s.state.fileId == Some(fileId))
  }

  /** The state after the frames of a split file have arrived in the order `order`. */
  lemma {:induction false} ListenDelivered(buffer: seq<byte>, fileId: u32, order: seq<nat>)
    requires |buffer| <= MAX_FILE_SIZE
    requires fileId != FINISH_FILE_ID
    requires Indexes(order, Split(buffer, fileId))
    ensures HoldsDelivered(Split(buffer, fileId), fileId, order, Listen(Initial, Delivered(Split(buffer, fileId), order)))
  {
    var ps := Split(buffer, fileId);
    if order != [] {
      var init := order[..|order| - 1];
      ListenDelivered(buffer, fileId, init);
      var ds := Delivered(ps, order);
      assert ds[..|ds| - 1] == Delivered(ps, init);
      SplitChunks(buffer, fileId);
      var before := Listen(Initial, Delivered(ps, init));
      DeliverOne(ps, fileId, order, before);
      assert ds[|ds| - 1] == Serialize(ps[order[|order| - 1]]);
      var step := Receive(before.state, ds[|ds| - 1]);
      assert Listen(Initial, ds) == Session(step.next, before.acks + AckSent(step.event), false);
    }
  }

  /** One more frame of a split file arrives. */
  lemma DeliverOne(ps: seq<Packet>, fileId: u32, order: seq<nat>, before: Session)
    requires order != [] && Indexes(order, ps) && |ps| <= U32_MAX
    requires forall i :: 0 <= i < |ps| ==>
               ps[i].packetNumber == i && ps[i].fileId == fileId && ps[i].totalPackets == |ps|
               && |ps[i].payload| <= PACKET_SIZE
    requires fileId != FINISH_FILE_ID
    requires HoldsDelivered(ps, fileId, order[..|order| - 1], before)
    ensures var i := order[|order| - 1];
      var step := Receive(before.state, Serialize(ps[i]));
      step.event.Acked? &&
      HoldsDelivered(ps, fileId, order, Session(step.next, before.acks + AckSent(step.event), false))
  {
    var init := order[..|order| - 1];
    var i := order[|order| - 1];
    FinishCollision(before.state, ps[i]);
    ReceiveFrame(before.state, ps[i]);
    var step := Receive(before.state, Serialize(ps[i]));
    assert order == init + [i];
    forall n: u32 ensures n in step.next.received <==> n as nat in order {
    }
  }

  /**
   * End to end: when every packet of a non-empty file has been delivered
   * at least once, in any order and with any repetitions, and FINISH
   * follows, the receiver has the whole file: the count check passes and
   * the packets in number order are exactly the split packets, whose
   * payloads join to the file.
   */
  lemma EndToEnd(buffer: seq<byte>, fileId: u32, order: seq<nat>)
    requires 0 < |buffer| <= MAX_FILE_SIZE
    requires fileId != FINISH_FILE_ID
    requires Indexes(order, Split(buffer, fileId))
    requires forall i :: 0 <= i < |Split(buffer, fileId)| ==> i in order
    ensures var s := Listen(Initial, Delivered(Split(buffer, fileId), order) + [FINISH_SIGNAL]);
      && s.finished
      && s.acks == AcksFor(order)
      && s.state.expectedTotal == Some(|Split(buffer, fileId)| as u32)
      && s.state.fileId == Some(fileId)
      && |s.state.received| == |Split(buffer, fileId)|
      && InOrder(s.state.received) == Split(buffer, fileId)
      && ConcatPayloads(InOrder(s.state.received)) == buffer
  {
    var ps := Split(buffer, fileId);
    var ds := Delivered(ps, order);
    ListenDelivered(buffer, fileId, order);
    var all := ds + [FINISH_SIGNAL];
    assert all[..|all| - 1] == ds;
    assert Truncate(FINISH_SIGNAL) == FINISH_SIGNAL;
    var s := Listen(Initial, all);
    assert s.state == Listen(Initial, ds).state;
    assert order != [] by {
      assert 0 in order;
    }
    InOrderRange(s.state.received, ps, 0);
    InOrderLength(s.state.received);
    SplitConcat(buffer, fileId);
  }

  /**
   * A whole transfer of a non-empty file: the sender's split, the frames
   * delivered in the order `order` (which names every packet at least
   * once), then FINISH; the receiver writes `received_file_<id>.dat`
   * holding exactly the file.
   */
  method RunTransfer(buffer: seq<byte>, fileId: u32, order: seq<nat>) returns (out: Option<Output>)
    requires 0 < |buffer| <= MAX_FILE_SIZE
    requires fileId != FINISH_FILE_ID
    requires Indexes(order, Split(buffer, fileId))
    requires forall i :: 0 <= i < |Split(buffer, fileId)| ==> i in order
    ensures out == Some(Output(OutputName(fileId), buffer))
  {
    var packets := ReadFileAndSplit(buffer, fileId);
    var datagrams := Delivered(packets, order) + [FINISH_SIGNAL];
    EndToEnd(buffer, fileId, order);
    var acks;
    acks, out := RunServer(datagrams);
    ghost var session := Listen(Initial, datagrams);
    assert session.finished;
    assert session.state.expectedTotal.value as int == |packets|;
    assert |session.state.received| == |packets| < 0x1_0000_0000;
    SmallCount(|packets|);
  }

  /** A count below 2^32 survives the `as u32` cast unchanged. */
  lemma SmallCount(n: nat)
    requires n < 0x1_0000_0000
    ensures n % 0x1_0000_0000 == n
  {
  }

  /** An empty file is split into no packets, so the receiver never learns a total and writes nothing. */
  lemma EmptyFile(fileId: u32)
    ensures Split([], fileId) == []
    ensures var s := Listen(Initial, [FINISH_SIGNAL]);
      s.finished && s.state == Initial && s.acks == []
  {
    assert Truncate(FINISH_SIGNAL) == FINISH_SIGNAL;
    assert [FINISH_SIGNAL][..0] == [];
  }

  /** An ACK names exactly the packet it was sent for. */
  lemma AckOfAck(n: u32)
    ensures AckOf(U32ToBE(n)) == {n}
  {
    BEToU32OfU32ToBE(n);
    assert U32ToBE(n)[..4] == U32ToBE(n);
  }

  /** Fed back to the sender, the receiver's ACKs acknowledge exactly the delivered numbers. */
  lemma {:induction false} AcksAcknowledge(order: seq<nat>)
    requires forall j :: 0 <= j < |order| ==> order[j] <= U32_MAX
    ensures forall n: u32 :: n in AckNumbers(AcksFor(order)) <==> n as nat in order
  {
    if order != [] {
      var init := order[..|order| - 1];
      var last := order[|order| - 1];
      AcksAcknowledge(init);
      var acks := AcksFor(order);
      assert acks[..|acks| - 1] == AcksFor(init);
      AckOfAck(last);
      forall n: u32 ensures n in AckNumbers(acks) <==> n as nat in order {
        assert order == init + [last];
      }
    }
  }

  /** A 10000-byte file travels as three packets of 4096, 4096 and 1808 bytes. */
  lemma TenThousandBytes(buffer: seq<byte>, fileId: u32)
    requires |buffer| == 10000
    ensures var ps := Split(buffer, fileId);
      |ps| == 3 && |ps[0].payload| == 4096 && |ps[1].payload| == 4096 && |ps[2].payload| == 1808
  {
    SplitSizes(buffer, fileId);
  }

  /** The flags of three fresh packets after the ACKs for 0 and 2. */
  function AckedZeroAndTwo(): map<u32, bool>
  {
    MarkAcked(map[0 := false, 1 := false, 2 := false], [U32ToBE(0), U32ToBE(2)])
  }

  /** The ACKs for 0 and 2 set exactly those two flags. */
  lemma AckedZeroAndTwoFlags()
    ensures IsAcked(AckedZeroAndTwo(), 0) && !IsAcked(AckedZeroAndTwo(), 1) && IsAcked(AckedZeroAndTwo(), 2)
  {
    var init := map[0 := false, 1 := false, 2 := false];
    var acks := [U32ToBE(0), U32ToBE(2)];
    AcksAcknowledge([0, 2]);
    assert AcksFor([0, 2]) == acks by {
      assert [0, 2][..1] == [0];
      assert [0][..0] == [];
    }
    MarkAckedAt(init, acks, 0);
    MarkAckedAt(init, acks, 1);
    MarkAckedAt(init, acks, 2);
  }

  /**
   * A lost ACK: of three packets, the ACKs for 0 and 2 arrive and the one
   * for 1 does not; after the round only packet 1 is pending and only its
   * counter has grown.
   */
  lemma LostAck(ps: seq<Packet>)
    requires |ps| == 3
    requires forall i :: 0 <= i < 3 ==> ps[i].packetNumber == i
    ensures var init := Sender(map[0 := false, 1 := false, 2 := false], map[0 := 0, 1 := 0, 2 := 0], ps);
      var next := Step(ps, init, [U32ToBE(0), U32ToBE(2)]);
      && next.pending == [ps[1]]
      && RetryCount(next.retries, 0) == 0
      && RetryCount(next.retries, 1) == 1
      && RetryCount(next.retries, 2) == 0
  {
    var acked := AckedZeroAndTwo();
    AckedZeroAndTwoFlags();
    var t1 := ps[1..];
    var t2 := t1[1..];
    assert Unacked(t2[1..], acked) == [];
    assert Unacked(t2, acked) == [];
    assert Unacked(t1, acked) == [ps[1]];
    assert Unacked(ps, acked) == [ps[1]];
    var pending := [ps[1]];
    assert Numbers(pending) == {1} by {
      assert pending[..0] == [];
    }
    var retries := map[0 := 0, 1 := 0, 2 := 0];
    BumpedAt(retries, pending, 0);
    BumpedAt(retries, pending, 1);
    BumpedAt(retries, pending, 2);
  }
}
