/**
 * The receiving side of the transfer (`run_server` in src/server.rs): the
 * per-datagram step of its `loop`, which stores packets first-come
 * first-served and answers every decoded packet with an ACK, and the
 * finalisation that checks the packet count, sorts the packets by number
 * and concatenates their payloads into the output file.
 */
module Server {
  import opened Bytes
  import opened Wrappers
  import opened Packets

  /** Size of the receive buffer: a longer datagram is cut to this length. */
  const BUFFER_SIZE: nat := 8192

  /** The receiver's state: `received_packets`, `expected_total` and `file_id`. */
  datatype Receiver = Receiver(received: map<u32, Packet>, expectedTotal: Option<u32>, fileId: Option<u32>)

  /** What the step did with one datagram. */
  datatype Event =
    | Skipped              // empty datagram: `continue`
    | Finished             // FINISH signal: `break`
    | Discarded            // could not be decoded: logged and dropped
    | Acked(ack: seq<byte>) // decoded: this ACK is sent back to the sender

  datatype Reception = Reception(next: Receiver, event: Event)

  /** The state before the first datagram. */
  const Initial: Receiver := Receiver(map[], None, None)

  /** The bytes `recv_from` leaves in the buffer. */
  function Truncate(datagram: seq<byte>): (d: seq<byte>)
    ensures |d| <= BUFFER_SIZE && |d| <= |datagram|
    ensures d == datagram[..|d|]
    ensures |d| == |datagram| || |d| == BUFFER_SIZE
  {
    if |datagram| > BUFFER_SIZE then datagram[..BUFFER_SIZE] else datagram
  }

  /** The FINISH test: at least six bytes, the first six spelling FINISH. */
  predicate IsFinish(d: seq<byte>)
    ensures IsFinish(d) <==> FINISH_SIGNAL <= d
  {
    |d| >= |FINISH_SIGNAL| && d[..|FINISH_SIGNAL|] == FINISH_SIGNAL
  }

  /**
   * Every stored packet sits under its own packet number, as
   * `received_packets.entry(packet.packet_number)` guarantees.
   */
  predicate Keyed(m: map<u32, Packet>)
  {
    forall n :: n in m ==> m[n].packetNumber == n
  }

  /**
   * One pass of the `loop` body of `run_server`: skip an empty datagram,
   * stop on FINISH before decoding, drop what does not decode, otherwise
   * latch the total and file id from the first decoded packet, store the
   * packet unless its number is already stored, and ACK its number.
   */
  function Receive(r: Receiver, datagram: seq<byte>): (out: Reception)
    ensures !out.event.Acked? ==> out.next == r
    ensures out.event.Acked? ==> |out.event.ack| == 4
    ensures r.received.Keys <= out.next.received.Keys
  {
    var d := Truncate(datagram);
    if |d| == 0 then Reception(r, Skipped)
    else if IsFinish(d) then Reception(r, Finished)
    else
      match Deserialize(d)
      case Failure(_) => Reception(r, Discarded)
      case Success(p) =>
        var latched :=
          if r.expectedTotal.None? then r.(expectedTotal := Some(p.totalPackets), fileId := Some(p.fileId))
          else r;
        var stored := if p.packetNumber in r.received then r.received else r.received[p.packetNumber := p];
        Reception(latched.(received := stored), Acked(U32ToBE(p.packetNumber)))
  }

  /** An empty datagram is skipped and changes nothing. */
  lemma ReceiveEmpty(r: Receiver)
    ensures Receive(r, []) == Reception(r, Skipped)
  {
  }

  /**
   * A datagram is taken as FINISH exactly when its first six bytes spell
   * FINISH, whatever follows, and this happens before any decoding: the
   * state is left as it is.
   */
  lemma ReceiveFinish(r: Receiver, datagram: seq<byte>)
    ensures Receive(r, datagram).event == Finished <==> IsFinish(datagram)
    ensures Receive(r, datagram).event == Finished ==> Receive(r, datagram).next == r
  {
    var d := Truncate(datagram);
    if IsFinish(datagram) {
      assert d[..|FINISH_SIGNAL|] == datagram[..|FINISH_SIGNAL|];
    }
    if IsFinish(d) {
      assert d[..|FINISH_SIGNAL|] == datagram[..|FINISH_SIGNAL|];
    }
  }

  /** A datagram of 1 to 11 bytes that is not FINISH is dropped: no state change and no ACK. */
  lemma ReceiveShort(r: Receiver, datagram: seq<byte>)
    requires 0 < |datagram| < HEADER_SIZE
    requires !IsFinish(datagram)
    ensures Receive(r, datagram) == Reception(r, Discarded)
  {
  }

  /**
   * Every datagram that is neither empty nor FINISH and holds at least a
   * header is ACKed, duplicate or not, with its packet number as four
   * big-endian bytes.
   */
  lemma ReceiveAck(r: Receiver, datagram: seq<byte>)
    requires |datagram| >= HEADER_SIZE
    requires !IsFinish(datagram)
    ensures Receive(r, datagram).event == Acked(U32ToBE(BEToU32(datagram[4..8])))
  {
    ReceiveFinish(r, datagram);
    var d := Truncate(datagram);
    assert |d| >= HEADER_SIZE && d == datagram[..|d|];
    assert d[4..8] == datagram[4..8];
    assert Deserialize(d).Success? && Deserialize(d).value.packetNumber == BEToU32(d[4..8]);
  }

  /**
   * The total and the file id are set by the first decoded packet and never
   * change afterwards.
   */
  lemma ReceiveLatch(r: Receiver, datagram: seq<byte>)
    ensures r.expectedTotal.Some? ==> Receive(r, datagram).next.expectedTotal == r.expectedTotal
    ensures r.expectedTotal.Some? ==> Receive(r, datagram).next.fileId == r.fileId
    ensures r.expectedTotal.None? && Receive(r, datagram).event.Acked? ==>
              var p := Deserialize(Truncate(datagram)).value;
              Receive(r, datagram).next.expectedTotal == Some(p.totalPackets)
              && Receive(r, datagram).next.fileId == Some(p.fileId)
    ensures !Receive(r, datagram).event.Acked? ==> Receive(r, datagram).next == r
  {
  }

  /**
   * First arrival wins: a stored packet is never replaced or removed, and
   * the only number that can be added is the one being ACKed.
   */
  lemma ReceiveFirstWins(r: Receiver, datagram: seq<byte>)
    ensures var out := Receive(r, datagram);
      && (forall n :: n in r.received ==> n in out.next.received && out.next.received[n] == r.received[n])
      && out.next.received.Keys <= r.received.Keys + (if out.event.Acked? then {BEToU32(out.event.ack)} else {})
      && |out.next.received| <= |r.received| + 1
  {
    var out := Receive(r, datagram);
    if out.event.Acked? {
      var p := Deserialize(Truncate(datagram)).value;
      assert out.event.ack == U32ToBE(p.packetNumber);
      BEToU32OfU32ToBE(p.packetNumber);
      if p.packetNumber !in r.received {
        assert out.next.received == r.received[p.packetNumber := p];
        assert out.next.received.Keys == r.received.Keys + {p.packetNumber};
      } else {
        assert out.next.received == r.received;
      }
    } else {
      assert out.next == r;
    }
  }

  /** The step keeps every packet under its own number. */
  lemma ReceiveKeyed(r: Receiver, datagram: seq<byte>)
    requires Keyed(r.received)
    ensures Keyed(Receive(r, datagram).next.received)
  {
  }

  /**
   * The FINISH check comes before decoding, so a data frame can be taken
   * for FINISH: exactly the packets whose file id is 0x46494E49 ("FINI")
   * and whose number has 0x5348 ("SH") as its two high bytes end the
   * transfer instead of being stored, whatever their payload.
   */
  lemma FinishCollision(r: Receiver, p: Packet)
    ensures IsFinish(Serialize(p)) <==> p.fileId == 0x46494E49 && p.packetNumber / 0x1_0000 == 0x5348
    ensures IsFinish(Serialize(p)) ==> Receive(r, Serialize(p)) == Reception(r, Finished)
  {
    var d := Serialize(p);
    var id, high := U32ToBE(p.fileId), U32ToBE(p.packetNumber)[..2];
    assert d[..|FINISH_SIGNAL|] == id + high by {
      assert d[..4] == id && d[4..8] == U32ToBE(p.packetNumber);
    }
    assert FINISH_SIGNAL == U32ToBE(0x46494E49) + [0x53, 0x48];
    HighHalf(p.packetNumber, 0x5348);
    if id == U32ToBE(0x46494E49) {
      U32ToBEInjective(p.fileId, 0x46494E49);
    }
    if IsFinish(d) {
      assert id == U32ToBE(0x46494E49) && high == [0x53, 0x48];
      ReceiveFinish(r, d);
    }
  }

  /**
   * A well-formed data frame that is not taken for FINISH and fits the
   * receive buffer is decoded to the packet it encodes, stored unless its
   * number is already stored, latched from if it is the first, and ACKed.
   */
  lemma ReceiveFrame(r: Receiver, p: Packet)
    requires !IsFinish(Serialize(p))
    requires |p.payload| <= BUFFER_SIZE - HEADER_SIZE
    ensures Receive(r, Serialize(p)).event == Acked(U32ToBE(p.packetNumber))
    ensures Receive(r, Serialize(p)).next.received
            == if p.packetNumber in r.received then r.received else r.received[p.packetNumber := p]
    ensures Receive(r, Serialize(p)).next.expectedTotal
            == if r.expectedTotal.None? then Some(p.totalPackets) else r.expectedTotal
    ensures Receive(r, Serialize(p)).next.fileId
            == if r.expectedTotal.None? then Some(p.fileId) else r.fileId
  {
    DeserializeSerialize(p);
    var d := Serialize(p);
    assert d[..4] == U32ToBE(p.fileId);
    BEToU32OfU32ToBE(p.fileId);
  }

  // ---------------------------------------------------------------------
  // The receive loop

  /** The state, the ACKs sent and whether FINISH was seen, after a run of datagrams. */
  datatype Session = Session(state: Receiver, acks: seq<seq<byte>>, finished: bool)

  /** The ACK a step sends, if any. */
  function AckSent(e: Event): seq<seq<byte>>
  {
    if e.Acked? then [e.ack] else []
  }

  /**
   * The `loop` of `run_server` over the datagrams `ds` in arrival order:
   * every datagram is a Receive step, and FINISH ends the loop, so that
   * the datagrams after it are never read.
   */
  function Listen(r: Receiver, ds: seq<seq<byte>>): (s: Session)
    ensures |s.acks| <= |ds|
    ensures r.received.Keys <= s.state.received.Keys
  {
    if ds == [] then Session(r, [], false)
    else
      var before := Listen(r, ds[..|ds| - 1]);
      if before.finished then before
      else
        var step := Receive(before.state, ds[|ds| - 1]);
        if step.event == Finished then Session(before.state, before.acks, true)
        else Session(step.next, before.acks + AckSent(step.event), false)
  }

  /** Once FINISH has been seen, later datagrams change nothing. */
  lemma {:induction false} ListenFinished(r: Receiver, ds: seq<seq<byte>>, k: nat)
    requires k <= |ds|
    requires Listen(r, ds[..k]).finished
    ensures Listen(r, ds) == Listen(r, ds[..k])
    decreases |ds| - k
  {
    if k < |ds| {
      assert ds[..k + 1][..k] == ds[..k];
      ListenFinished(r, ds, k + 1);
    } else {
      assert ds[..k] == ds;
    }
  }

  /**
   * The body of the `loop` of `run_server` for one datagram, on the three
   * pieces of state as `run_server` keeps them: `Finished` stands for the
   * `break`, `Skipped` for the `continue`.
   */
  method HandleDatagram(received: map<u32, Packet>, expectedTotal: Option<u32>, fileId: Option<u32>, datagram: seq<byte>)
    returns (received': map<u32, Packet>, expectedTotal': Option<u32>, fileId': Option<u32>, event: Event)
    ensures Reception(Receiver(received', expectedTotal', fileId'), event)
            == Receive(Receiver(received, expectedTotal, fileId), datagram)
  {
    received', expectedTotal', fileId' := received, expectedTotal, fileId;
    var buf := Truncate(datagram);
    if |buf| == 0 {
      return received', expectedTotal', fileId', Skipped;
    }
    if |buf| >= |FINISH_SIGNAL| && buf[..|FINISH_SIGNAL|] == FINISH_SIGNAL {
      return received', expectedTotal', fileId', Finished;
    }
    match Deserialize(buf) {
      case Success(packet) =>
        if expectedTotal'.None? {
          expectedTotal' := Some(packet.totalPackets);
          fileId' := Some(packet.fileId);
        }
        if packet.packetNumber !in received' {
          received' := received'[packet.packetNumber := packet];
        }
        event := Acked(U32ToBE(packet.packetNumber));
      case Failure(_) =>
        event := Discarded;
    }
  }

  /**
   * The receive loop of `run_server` on the datagrams `datagrams`. When
   * the datagrams run out before FINISH `run_server` would go on waiting;
   * here `finished` is then false.
   */
  method ReceiveAll(datagrams: seq<seq<byte>>) returns (state: Receiver, acks: seq<seq<byte>>, finished: bool)
    ensures Session(state, acks, finished) == Listen(Initial, datagrams)
  {
    var received: map<u32, Packet> := map[];
    var expectedTotal: Option<u32> := None;
    var fileId: Option<u32> := None;
    acks := [];
    finished := false;
    var i := 0;
    while i < |datagrams|
      invariant 0 <= i <= |datagrams|
      invariant Listen(Initial, datagrams[..i]) == Session(Receiver(received, expectedTotal, fileId), acks, false)
    {
      assert datagrams[..i + 1][..i] == datagrams[..i];
      var event;
      received, expectedTotal, fileId, event := HandleDatagram(received, expectedTotal, fileId, datagrams[i]);
      if event == Finished {
        ListenFinished(Initial, datagrams, i + 1);
        finished := true;
        break;
      }
      if event.Acked? {
        acks := acks + [event.ack];
      }
      i := i + 1;
    }
    if !finished {
      assert datagrams[..i] == datagrams;
    }
    state := Receiver(received, expectedTotal, fileId);
  }

  /**
   * Over a whole run the latch holds: once a total is set it never changes,
   * and neither does the file id.
   */
  lemma {:induction false} ListenLatch(r: Receiver, ds: seq<seq<byte>>)
    requires r.expectedTotal.Some?
    ensures Listen(r, ds).state.expectedTotal == r.expectedTotal
    ensures Listen(r, ds).state.fileId == r.fileId
  {
    if ds != [] {
      ListenLatch(r, ds[..|ds| - 1]);
      var before := Listen(r, ds[..|ds| - 1]);
      ReceiveLatch(before.state, ds[|ds| - 1]);
    }
  }

  /** Over a whole run no stored packet is ever replaced or removed, and packets stay keyed by number. */
  lemma {:induction false} ListenKeeps(r: Receiver, ds: seq<seq<byte>>)
    requires Keyed(r.received)
    ensures Keyed(Listen(r, ds).state.received)
    ensures forall n :: n in r.received ==>
              n in Listen(r, ds).state.received && Listen(r, ds).state.received[n] == r.received[n]
  {
    if ds != [] {
      ListenKeeps(r, ds[..|ds| - 1]);
      var before := Listen(r, ds[..|ds| - 1]);
      ReceiveFirstWins(before.state, ds[|ds| - 1]);
      ReceiveKeyed(before.state, ds[|ds| - 1]);
    }
  }

  // ---------------------------------------------------------------------
  // Finalisation

  /** The smallest stored packet number. */
  ghost function LeastKey(m: map<u32, Packet>): (k: u32)
    requires m != map[]
    ensures k in m && forall j :: j in m ==> k <= j
  {
    assert m.Keys != {} by {
      var x :| x in m;
    }
    LeastExists(m.Keys);
    var k :| k in m && forall j :: j in m ==> k <= j;
    k
  }

  /** The stored packets in ascending key order: what sorting the collected values yields. */
  ghost function InOrder(m: map<u32, Packet>): seq<Packet>
    decreases |m|
  {
    if m == map[] then []
    else
      var k := LeastKey(m);
      assert |m - {k}| < |m| by {
        assert m.Keys == (m - {k}).Keys + {k};
      }
      [m[k]] + InOrder(m - {k})
  }

  /** The stored packets as a bag, in no particular order. */
  ghost function Bag(m: map<u32, Packet>): multiset<Packet>
  {
    multiset(InOrder(m))
  }

  /** Packet numbers never decrease along `ps`: what `sort_by_key` establishes. */
  predicate NonDecreasing(ps: seq<Packet>)
  {
    forall i, j :: 0 <= i < j < |ps| ==> ps[i].packetNumber <= ps[j].packetNumber
  }

  /** Removing a key removes exactly its packet from the bag. */
  lemma {:induction false} BagRemove(m: map<u32, Packet>, x: u32)
    requires x in m
    ensures Bag(m) == Bag(m - {x}) + multiset{m[x]}
    decreases |m|
  {
    var k := LeastKey(m);
    var rest := m - {k};
    assert InOrder(m) == [m[k]] + InOrder(rest);
    if k != x {
      var smaller := m - {x};
      assert smaller != map[] by {
        assert k in smaller;
      }
      assert LeastKey(smaller) == k;
      assert smaller - {k} == rest - {x};
      assert InOrder(smaller) == [m[k]] + InOrder(rest - {x});
      assert |rest| < |m| by {
        assert m.Keys == rest.Keys + {k};
      }
      BagRemove(rest, x);
    }
  }

  /** With packets keyed by number, the key order is strictly ascending packet-number order. */
  lemma {:induction false} InOrderAscending(m: map<u32, Packet>)
    requires Keyed(m)
    ensures Ascending(InOrder(m))
    ensures forall p :: p in InOrder(m) ==> p.packetNumber in m
    decreases |m|
  {
    if m != map[] {
      var k := LeastKey(m);
      var rest := m - {k};
      assert |rest| < |m| by {
        assert m.Keys == rest.Keys + {k};
      }
      InOrderAscending(rest);
      forall q | q in InOrder(rest) ensures m[k].packetNumber < q.packetNumber {
        assert q.packetNumber in rest;
      }
      AscendingCons(m[k], InOrder(rest));
    }
  }

  /** Every stored packet appears once in the key order. */
  lemma {:induction false} InOrderLength(m: map<u32, Packet>)
    ensures |InOrder(m)| == |m|
    decreases |m|
  {
    if m != map[] {
      var k := LeastKey(m);
      assert m.Keys == (m - {k}).Keys + {k};
      InOrderLength(m - {k});
    }
  }

  /**
   * When the keys are exactly `lo` to `lo + |ps| - 1` and key `lo + i`
   * holds `ps[i]`, the key order gives back `ps`.
   */
  lemma {:induction false} InOrderRange(m: map<u32, Packet>, ps: seq<Packet>, lo: nat)
    requires lo + |ps| <= 0x1_0000_0000
    requires forall n: u32 :: n in m <==> lo <= n < lo + |ps|
    requires forall n :: n in m ==> m[n] == ps[n - lo]
    ensures InOrder(m) == ps
    decreases |ps|
  {
    if ps == [] {
      assert m.Keys == {};
      assert m == map[];
    } else {
      assert lo in m;
      var k := LeastKey(m);
      assert k == lo;
      var rest := m - {k};
      InOrderRange(rest, ps[1..], lo + 1);
    }
  }

  /**
   * A non-decreasing list with the same packets as a strictly ascending
   * one is that list: sorting by number leaves no choice.
   */
  lemma {:induction false} SortedUnique(s: seq<Packet>, t: seq<Packet>)
    requires NonDecreasing(s) && Ascending(t)
    requires multiset(s) == multiset(t)
    ensures s == t
  {
    assert |s| == |t| by {
      assert |multiset(s)| == |s| && |multiset(t)| == |t|;
    }
    if s != [] {
      SameHead(s, t);
      SameTail(s, t);
      SortedUnique(s[1..], t[1..]);
      assert s == [s[0]] + s[1..] && t == [t[0]] + t[1..];
    }
  }

  /** The first packets agree: the smallest number comes first in both. */
  lemma SameHead(s: seq<Packet>, t: seq<Packet>)
    requires NonDecreasing(s) && Ascending(t)
    requires multiset(s) == multiset(t)
    requires s != [] && t != []
    ensures s[0] == t[0]
  {
    assert s[0] in t by {
      assert s[0] in multiset(s);
    }
    assert t[0] in s by {
      assert t[0] in multiset(t);
    }
    var i :| 0 <= i < |t| && t[i] == s[0];
    var j :| 0 <= j < |s| && s[j] == t[0];
    if i > 0 {
      assert false;
    }
  }

  /** Dropping a shared first packet keeps the lists permutations of each other, and sorted. */
  lemma SameTail(s: seq<Packet>, t: seq<Packet>)
    requires NonDecreasing(s) && Ascending(t)
    requires multiset(s) == multiset(t)
    requires s != [] && t != [] && s[0] == t[0]
    ensures multiset(s[1..]) == multiset(t[1..])
    ensures NonDecreasing(s[1..]) && Ascending(t[1..])
  {
    MultisetTail(s);
    MultisetTail(t);
    NonDecreasingTail(s);
    AscendingTail(t);
  }

  /** A non-empty list's bag is its head plus the bag of its tail. */
  lemma MultisetTail(s: seq<Packet>)
    requires s != []
    ensures multiset(s[1..]) == multiset(s) - multiset{s[0]}
  {
    assert s == [s[0]] + s[1..];
  }

  lemma NonDecreasingTail(s: seq<Packet>)
    requires NonDecreasing(s) && s != []
    ensures NonDecreasing(s[1..])
  {
    var s' := s[1..];
    forall x, y | 0 <= x < y < |s'| ensures s'[x].packetNumber <= s'[y].packetNumber {
      assert s'[x] == s[x + 1] && s'[y] == s[y + 1];
    }
  }

  /**
   * The `values().cloned().collect()` of `run_server`: the stored packets
   * in whatever order the map yields them, modelled as an arbitrary choice
   * of the next key.
   */
  method Collect(m: map<u32, Packet>) returns (collected: seq<Packet>)
    ensures multiset(collected) == Bag(m)
  {
    collected := [];
    var rest := m;
    while rest != map[]
      invariant multiset(collected) + Bag(rest) == Bag(m)
      decreases |rest|
    {
      var p;
      rest, p := TakeAny(rest);
      collected := collected + [p];
    }
  }

  /** One step of iterating a map in unspecified order: some entry and what remains. */
  method TakeAny(m: map<u32, Packet>) returns (rest: map<u32, Packet>, p: Packet)
    requires m != map[]
    ensures |rest| < |m|
    ensures Bag(m) == Bag(rest) + multiset{p}
  {
    var k :| k in m;
    p := m[k];
    BagRemove(m, k);
    rest := m - {k};
    assert m.Keys == rest.Keys + {k};
  }

  /** Packet numbers never decrease over positions `lo` to `hi - 1` of `ps`. */
  predicate SortedBetween(ps: seq<Packet>, lo: nat, hi: nat)
    requires lo <= hi <= |ps|
  {
    forall x, y :: lo <= x < y < hi ==> ps[x].packetNumber <= ps[y].packetNumber
  }

  /** `packets.sort_by_key(|p| p.packet_number)`, in place, as an insertion sort. */
  method SortByNumber(a: array<Packet>)
    modifies a
    ensures NonDecreasing(a[..])
    ensures multiset(a[..]) == multiset(old(a[..]))
  {
    for i := 0 to a.Length
      invariant SortedBetween(a[..], 0, i)
      invariant multiset(a[..]) == multiset(old(a[..]))
    {
      InsertLast(a, i);
    }
  }

  /** Moves `a[i]` down into the sorted prefix `a[..i]`, one swap at a time. */
  method InsertLast(a: array<Packet>, i: nat)
    requires i < a.Length
    requires SortedBetween(a[..], 0, i)
    modifies a
    ensures SortedBetween(a[..], 0, i + 1)
    ensures multiset(a[..]) == multiset(old(a[..]))
  {
    var j := i;
    while j > 0 && a[j - 1].packetNumber > a[j].packetNumber
      invariant 0 <= j <= i < a.Length
      invariant SortedApartFrom(a[..], i, j)
      invariant multiset(a[..]) == multiset(old(a[..]))
    {
      SwapDown(a, i, j);
      j := j - 1;
    }
    InsertDone(a[..], i, j);
  }

  /** One swap moves the out-of-place packet one position down. */
  method SwapDown(a: array<Packet>, i: nat, j: nat)
    requires 0 < j <= i < a.Length
    requires SortedApartFrom(a[..], i, j)
    requires a[j - 1].packetNumber > a[j].packetNumber
    modifies a
    ensures SortedApartFrom(a[..], i, j - 1)
    ensures multiset(a[..]) == multiset(old(a[..]))
  {
    ghost var before := a[..];
    a[j - 1], a[j] := a[j], a[j - 1];
    assert a[..] == before[j - 1 := before[j]][j := before[j - 1]];
    SwappedApartFrom(before, i, j);
  }

  /**
   * The state of the insertion: apart from position `j`, positions 0 to `i`
   * are sorted, and the packet at `j` is no larger than anything after it.
   */
  predicate SortedApartFrom(ps: seq<Packet>, i: nat, j: nat)
    requires j <= i < |ps|
  {
    && (forall x, y :: 0 <= x < y <= i && x != j && y != j ==> ps[x].packetNumber <= ps[y].packetNumber)
    && (forall y :: j < y <= i ==> ps[j].packetNumber <= ps[y].packetNumber)
  }

  /** Swapping the out-of-place packet with a larger left neighbour keeps the insertion state. */
  lemma SwappedApartFrom(ps: seq<Packet>, i: nat, j: nat)
    requires 0 < j <= i < |ps|
    requires SortedApartFrom(ps, i, j)
    requires ps[j - 1].packetNumber > ps[j].packetNumber
    ensures SortedApartFrom(ps[j - 1 := ps[j]][j := ps[j - 1]], i, j - 1)
  {
    var qs := ps[j - 1 := ps[j]][j := ps[j - 1]];
    forall x, y | 0 <= x < y <= i && x != j - 1 && y != j - 1
      ensures qs[x].packetNumber <= qs[y].packetNumber
    {
      if y == j {
        assert qs[y] == ps[j - 1];
        assert x < j - 1;
      } else if x == j {
        assert qs[x] == ps[j - 1] && qs[y] == ps[y];
      } else {
        assert qs[x] == ps[x] && qs[y] == ps[y];
      }
    }
    forall y | j - 1 < y <= i ensures qs[j - 1].packetNumber <= qs[y].packetNumber {
      if y > j {
        assert qs[y] == ps[y];
      }
    }
  }

  /** Once the packet at `j` is no smaller than its left neighbour, positions 0 to `i` are sorted. */
  lemma InsertDone(ps: seq<Packet>, i: nat, j: nat)
    requires j <= i < |ps|
    requires SortedApartFrom(ps, i, j)
    requires j == 0 || ps[j - 1].packetNumber <= ps[j].packetNumber
    ensures SortedBetween(ps, 0, i + 1)
  {
    forall x, y | 0 <= x < y < i + 1 ensures ps[x].packetNumber <= ps[y].packetNumber {
      if y == j && x < j - 1 {
        assert ps[x].packetNumber <= ps[j - 1].packetNumber;
      }
    }
  }

  /** The output file: its name and its bytes. */
  datatype Output = Output(name: string, data: seq<byte>)

  /**
   * The part of `run_server` after the loop. Reassembly happens only when a
   * total was learned and the number of stored packets, cast to u32, equals
   * it; the packets are then sorted by number and their payloads joined, and
   * the file is named after the latched file id (0 if none). `ordered` is
   * the sorted list.
   */
  method Finalize(r: Receiver) returns (out: Option<Output>, ordered: seq<Packet>)
    ensures out.Some? <==> r.expectedTotal.Some? && |r.received| % 0x1_0000_0000 == r.expectedTotal.value as int
    ensures out.Some? ==> NonDecreasing(ordered) && multiset(ordered) == Bag(r.received)
    ensures out.Some? ==> out.value.data == ConcatPayloads(ordered)
    ensures out.Some? ==> out.value.name == OutputName(GetOr(r.fileId, 0))
    ensures out.Some? && Keyed(r.received) ==> ordered == InOrder(r.received)
  {
    ordered := [];
    if r.expectedTotal.None? || |r.received| % 0x1_0000_0000 != r.expectedTotal.value as int {
      return None, ordered;
    }
    var collected := Collect(r.received);
    var packets := new Packet[|collected|](i requires 0 <= i < |collected| => collected[i]);
    assert packets[..] == collected;
    SortByNumber(packets);
    ordered := packets[..];
    var data: seq<byte> := [];
    for i := 0 to packets.Length
      invariant data == ConcatPayloads(packets[..i])
    {
      assert packets[..i + 1][..i] == packets[..i];
      data := data + packets[i].payload;
    }
    assert packets[..packets.Length] == ordered;
    if Keyed(r.received) {
      InOrderAscending(r.received);
      SortedUnique(ordered, InOrder(r.received));
    }
    out := Some(Output(OutputName(GetOr(r.fileId, 0)), data));
  }

  // ---------------------------------------------------------------------
  // The output file name

  function Digit(d: nat): char
    requires d < 10
  {
    ('0' as int + d) as char
  }

  function DigitValue(c: char): nat
  {
    if '0' <= c <= '9' then c as int - '0' as int else 0
  }

  /** `{}` formatting of an unsigned integer: decimal digits, no leading zero. */
  function Decimal(n: nat): (s: string)
    ensures |s| >= 1
    ensures forall i :: 0 <= i < |s| ==> '0' <= s[i] <= '9'
    ensures s[0] == '0' <==> n == 0
    ensures s[0] == '0' ==> |s| == 1
  {
    if n < 10 then [Digit(n)] else Decimal(n / 10) + [Digit(n % 10)]
  }

  /** Reading a string of decimal digits back as a number. */
  function ParseDecimal(s: string): nat
  {
    if s == [] then 0 else ParseDecimal(s[..|s| - 1]) * 10 + DigitValue(s[|s| - 1])
  }

  lemma {:induction false} ParseDecimalOfDecimal(n: nat)
    ensures ParseDecimal(Decimal(n)) == n
  {
    if n >= 10 {
      ParseDecimalOfDecimal(n / 10);
      var s := Decimal(n);
      assert s == Decimal(n / 10) + [Digit(n % 10)];
      assert s[..|s| - 1] == Decimal(n / 10);
      assert DigitValue(s[|s| - 1]) == n % 10;
    }
  }

  /** `format!("received_file_{}.dat", id)`. */
  function OutputName(id: u32): (name: string)
    ensures |name| == 18 + |Decimal(id)|
    ensures name[..14] == "received_file_" && name[|name| - 4..] == ".dat"
    ensures name[14..|name| - 4] == Decimal(id)
  {
    "received_file_" + Decimal(id) + ".dat"
  }

  /** The id can be read back from the name, so different ids never share an output file. */
  lemma OutputNameInjective(a: u32, b: u32)
    ensures OutputName(a) == OutputName(b) ==> a == b
  {
    if OutputName(a) == OutputName(b) {
      var na := OutputName(a);
      assert Decimal(a) == na[14..|na| - 4];
      assert Decimal(b) == OutputName(b)[14..|OutputName(b)| - 4];
      ParseDecimalOfDecimal(a);
      ParseDecimalOfDecimal(b);
    }
  }

  // ---------------------------------------------------------------------
  // The whole server

  /**
   * `run_server` on a finite run of datagrams: the receive loop, then, if
   * FINISH was seen, the finalisation. No output when FINISH never came
   * (`run_server` would still be waiting) or finalisation declined.
   */
  method RunServer(datagrams: seq<seq<byte>>) returns (acks: seq<seq<byte>>, out: Option<Output>)
    ensures acks == Listen(Initial, datagrams).acks
    ensures out.Some? ==> Listen(Initial, datagrams).finished
    ensures var s := Listen(Initial, datagrams).state;
      out.Some? <==> Listen(Initial, datagrams).finished && s.expectedTotal.Some?
                     && |s.received| % 0x1_0000_0000 == s.expectedTotal.value as int
    ensures out.Some? ==> out.value.data == ConcatPayloads(InOrder(Listen(Initial, datagrams).state.received))
    ensures out.Some? ==> out.value.name == OutputName(GetOr(Listen(Initial, datagrams).state.fileId, 0))
  {
    var state, finished;
    state, acks, finished := ReceiveAll(datagrams);
    out := None;
    if finished {
      ListenKeeps(Initial, datagrams);
      var ordered;
      out, ordered := Finalize(state);
    }
  }
}
