/**
 * The sender of client.rs: the splitter inside `read_file_and_split` and the
 * send / collect-ACKs / filter / count-retries rounds of `run_client`, with
 * the socket replaced by explicit inputs (the ACK datagrams that arrive in
 * each round's window) and outputs (the datagrams sent).
 */
module Client {
  import opened Bytes
  import opened Wrappers
  import opened Packets

  /** Payload bytes per packet. */
  const PACKET_SIZE: nat := 4096
  /** Above this count a still-pending packet is reported (and only reported). */
  const MAX_RETRIES: nat := 5
  /** `run_client` always uses this transfer id. */
  const CLIENT_FILE_ID: u32 := 1001
  /** The largest file whose packet count fits in a u32. */
  const MAX_FILE_SIZE: nat := PACKET_SIZE * U32_MAX

  function Min(a: int, b: int): int
  {
    if a < b then a else b
  }

  /**
   * `total_packets`: the ceiling of `fileSize / PACKET_SIZE`, taken with
   * integers, then converted to u32; Rust's float-to-int `as` saturates, so
   * a count that does not fit becomes U32_MAX.
   */
  function TotalPackets(fileSize: nat): (t: u32)
    ensures t == 0 <==> fileSize == 0
    ensures fileSize <= MAX_FILE_SIZE ==> (t - 1) * PACKET_SIZE < fileSize <= t * PACKET_SIZE
    ensures fileSize > MAX_FILE_SIZE ==> t == U32_MAX
  {
    var c := (fileSize + PACKET_SIZE - 1) / PACKET_SIZE;
    if c > U32_MAX then U32_MAX else c
  }

  /**
   * Packet `i` of a file: bytes `[i * PACKET_SIZE, min(i * PACKET_SIZE + PACKET_SIZE, size))`,
   * a non-empty slice at offset `i * PACKET_SIZE` that is full unless it reaches the end of the file.
   */
  function Chunk(buffer: seq<byte>, fileId: u32, total: u32, i: u32): (p: Packet)
    requires i * PACKET_SIZE < |buffer|
    ensures 1 <= |p.payload| <= PACKET_SIZE
    ensures |p.payload| == PACKET_SIZE || i * PACKET_SIZE + |p.payload| == |buffer|
    ensures i * PACKET_SIZE + |p.payload| <= |buffer|
    ensures p.payload == buffer[i * PACKET_SIZE..i * PACKET_SIZE + |p.payload|]
  {
    var start := i * PACKET_SIZE;
    var end := Min(start + PACKET_SIZE, |buffer|);
    Packet(fileId, i, total, buffer[start..end])
  }

  /** The packets `read_file_and_split` produces for the file contents `buffer`. */
  function Split(buffer: seq<byte>, fileId: u32): (ps: seq<Packet>)
    ensures |ps| == TotalPackets(|buffer|)
    ensures forall i :: 0 <= i < |ps| ==>
              ps[i].packetNumber == i && ps[i].fileId == fileId && ps[i].totalPackets == |ps|
  {
    var total := TotalPackets(|buffer|);
    seq(total, i requires 0 <= i < total => Chunk(buffer, fileId, total, i))
  }

  /** The loop of `read_file_and_split` (client.rs), after the file has been read into `buffer`. */
  method ReadFileAndSplit(buffer: seq<byte>, fileId: u32) returns (packets: seq<Packet>)
    ensures packets == Split(buffer, fileId)
  {
    var fileSize := |buffer|;
    packets := [];
    var totalPackets := TotalPackets(fileSize);
    for i := 0 to totalPackets
      invariant packets == Split(buffer, fileId)[..i]
    {
      var start := i * PACKET_SIZE;
      var end := Min(start + PACKET_SIZE, fileSize);
      var payload := buffer[start..end];
      packets := packets + [Packet(fileId, i, totalPackets, payload)];
    }
  }

  /** Split numbers its packets 0, 1, 2, ... */
  lemma SplitAscending(buffer: seq<byte>, fileId: u32)
    ensures Ascending(Split(buffer, fileId))
    ensures forall n: u32 :: n in Numbers(Split(buffer, fileId)) <==> n < |Split(buffer, fileId)|
  {
    var ps := Split(buffer, fileId);
    forall n: u32 ensures n in Numbers(ps) <==> n < |ps| {
      NumbersAt(ps, n);
      if n < |ps| {
        assert ps[n].packetNumber == n;
      }
    }
  }

  /** Every packet but the last is full; the last holds the 1..PACKET_SIZE remaining bytes. */
  lemma SplitSizes(buffer: seq<byte>, fileId: u32)
    requires |buffer| <= MAX_FILE_SIZE
    ensures var ps := Split(buffer, fileId);
      && |ps| == (|buffer| + PACKET_SIZE - 1) / PACKET_SIZE
      && (forall i :: 0 <= i < |ps| - 1 ==> |ps[i].payload| == PACKET_SIZE)
      && (|ps| > 0 ==> 1 <= |ps[|ps| - 1].payload| <= PACKET_SIZE
                       && |ps[|ps| - 1].payload| == |buffer| - (|ps| - 1) * PACKET_SIZE)
  {
  }

  lemma {:induction false} SplitPrefixConcat(buffer: seq<byte>, fileId: u32, k: nat)
    requires k <= |Split(buffer, fileId)|
    ensures ConcatPayloads(Split(buffer, fileId)[..k]) == buffer[..Min(k * PACKET_SIZE, |buffer|)]
  {
    if k > 0 {
      var ps := Split(buffer, fileId);
      var j := k - 1;
      var lo := j * PACKET_SIZE;
      var hi := Min(k * PACKET_SIZE, |buffer|);
      assert ConcatPayloads(ps[..k]) == ConcatPayloads(ps[..j]) + ps[j].payload by {
        assert ps[..k][..j] == ps[..j];
      }
      SplitPrefixConcat(buffer, fileId, j);
      SplitPayloadAt(buffer, fileId, j);
      assert lo < |buffer| && ps[j].payload == buffer[lo..hi] && ConcatPayloads(ps[..j]) == buffer[..lo];
      PrefixJoin(buffer, lo, hi);
    }
  }

  /** The bytes before `hi` are those before `lo` followed by those from `lo` to `hi`. */
  lemma PrefixJoin(b: seq<byte>, lo: nat, hi: nat)
    requires lo <= hi <= |b|
    ensures b[..hi] == b[..lo] + b[lo..hi]
  {
  }

  /** Packet `j` of a split file holds bytes `j * PACKET_SIZE` up to the next boundary or the end. */
  lemma SplitPayloadAt(buffer: seq<byte>, fileId: u32, j: nat)
    requires j < |Split(buffer, fileId)|
    ensures j * PACKET_SIZE < |buffer|
    ensures Split(buffer, fileId)[j].payload == buffer[j * PACKET_SIZE..Min((j + 1) * PACKET_SIZE, |buffer|)]
  {
    var size := |buffer|;
    if size <= MAX_FILE_SIZE {
      assert j * PACKET_SIZE <= (TotalPackets(size) - 1) * PACKET_SIZE;
    }
    assert Split(buffer, fileId)[j] == Chunk(buffer, fileId, TotalPackets(size), j);
  }

  /**
   * Joining the payloads in order gives the file back; a file too large for
   * a u32 packet count loses everything after MAX_FILE_SIZE bytes.
   */
  lemma SplitConcat(buffer: seq<byte>, fileId: u32)
    ensures ConcatPayloads(Split(buffer, fileId)) == buffer[..Min(|buffer|, MAX_FILE_SIZE)]
  {
    var ps := Split(buffer, fileId);
    SplitPrefixConcat(buffer, fileId, |ps|);
    assert ps[..|ps|] == ps;
  }

  // ---------------------------------------------------------------------
  // Retransmission rounds

  /** The sender's per-transfer state: the `acked`, `retries` and `pending_packets` of `run_client`. */
  datatype Sender = Sender(acked: map<u32, bool>, retries: map<u32, nat>, pending: seq<Packet>)

  /** The flags after `acked.insert(i as u32, false)` for `i` from 0 below `count`. */
  function InitFlags(count: nat): map<u32, bool>
  {
    if count == 0 then map[] else InitFlags(count - 1)[(count - 1) % 0x1_0000_0000 := false]
  }

  /** The counters after `retries.insert(i as u32, 0)` for `i` from 0 below `count`. */
  function InitCounters(count: nat): map<u32, nat>
  {
    if count == 0 then map[] else InitCounters(count - 1)[(count - 1) % 0x1_0000_0000 := 0]
  }

  /** The state `run_client` enters its loop with. */
  function Fresh(packets: seq<Packet>): Sender
  {
    Sender(InitFlags(|packets|), InitCounters(|packets|), packets)
  }

  /**
   * The two initialisation loops of `run_client`: flag false and counter 0
   * for `i as u32` for every packet index `i`; every packet pending.
   */
  method InitialSender(packets: seq<Packet>) returns (s: Sender)
    ensures s == Fresh(packets)
    ensures forall n: u32 :: n in s.acked <==> n < |packets|
    ensures forall n :: n in s.acked ==> !s.acked[n]
    ensures forall n: u32 :: n in s.retries <==> n < |packets|
    ensures forall n :: n in s.retries ==> s.retries[n] == 0
    ensures s.pending == packets
  {
    var acked: map<u32, bool> := map[];
    for i := 0 to |packets|
      invariant acked == InitFlags(i)
    {
      acked := acked[i % 0x1_0000_0000 := false];
    }
    var retries: map<u32, nat> := map[];
    for i := 0 to |packets|
      invariant retries == InitCounters(i)
    {
      retries := retries[i % 0x1_0000_0000 := 0];
    }
    s := Sender(acked, retries, packets);
    InitFlagsAt(|packets|);
    InitCountersAt(|packets|);
  }

  /** The initial flags: one per number below `count`, all false. */
  lemma {:induction false} InitFlagsAt(count: nat)
    ensures forall n: u32 :: n in InitFlags(count) <==> n < count
    ensures forall n :: n in InitFlags(count) ==> !InitFlags(count)[n]
  {
    if count > 0 {
      InitFlagsAt(count - 1);
    }
  }

  /** The initial counters: one per number below `count`, all 0. */
  lemma {:induction false} InitCountersAt(count: nat)
    ensures forall n: u32 :: n in InitCounters(count) <==> n < count
    ensures forall n :: n in InitCounters(count) ==> InitCounters(count)[n] == 0
  {
    if count > 0 {
      InitCountersAt(count - 1);
    }
  }

  /** `acked.get(&n).unwrap_or(&false)`. */
  predicate IsAcked(acked: map<u32, bool>, n: u32)
  {
    n in acked && acked[n]
  }

  /** The packet numbers whose flag is set. */
  function AckedSet(acked: map<u32, bool>): set<u32>
  {
    set n | n in acked && acked[n]
  }

  /** `retries.entry(n).or_insert(0)`, read without inserting. */
  function RetryCount(retries: map<u32, nat>, n: u32): nat
  {
    if n in retries then retries[n] else 0
  }

  /**
   * What one ACK datagram acknowledges: a datagram of at least four bytes
   * acknowledges the big-endian u32 in its first four bytes (the receive
   * buffer holds eight bytes, so a longer datagram is cut, which does not
   * change this); a shorter one acknowledges nothing.
   */
  function AckOf(datagram: seq<byte>): (r: set<u32>)
    ensures r == {} <==> |datagram| < 4
    ensures |datagram| >= 4 ==> exists n :: r == {n} && U32ToBE(n) == datagram[..4]
  {
    if |datagram| >= 4 then
      U32ToBEOfBEToU32(datagram[..4]);
      {BEToU32(datagram[..4])}
    else {}
  }

  /** The numbers acknowledged by a batch of ACK datagrams. */
  function AckNumbers(acks: seq<seq<byte>>): set<u32>
  {
    if acks == [] then {} else AckNumbers(acks[..|acks| - 1]) + AckOf(acks[|acks| - 1])
  }

  /**
   * The flags after the ACK datagrams `acks` have been applied in order:
   * each datagram of at least four bytes sets the flag of its number to
   * true, inserting it when the number is not yet a key.
   */
  function MarkAcked(acked: map<u32, bool>, acks: seq<seq<byte>>): (r: map<u32, bool>)
    ensures acked.Keys <= r.Keys
  {
    if acks == [] then acked
    else
      var before := MarkAcked(acked, acks[..|acks| - 1]);
      var last := acks[|acks| - 1];
      if |last| >= 4 then before[BEToU32(last[..4]) := true] else before
  }

  /**
   * Pointwise meaning of MarkAcked: the acknowledged numbers become keys
   * with a true flag; every other key keeps its flag; nothing is removed.
   */
  lemma {:induction false} MarkAckedAt(acked: map<u32, bool>, acks: seq<seq<byte>>, n: u32)
    ensures n in MarkAcked(acked, acks) <==> n in acked || n in AckNumbers(acks)
    ensures n in AckNumbers(acks) ==> MarkAcked(acked, acks)[n]
    ensures n in acked && n !in AckNumbers(acks) ==> MarkAcked(acked, acks)[n] == acked[n]
  {
    if acks != [] {
      MarkAckedAt(acked, acks[..|acks| - 1], n);
    }
  }

  /** Applying ACKs only adds numbers to the acknowledged set and never clears one. */
  lemma MarkAckedSet(acked: map<u32, bool>, acks: seq<seq<byte>>)
    ensures AckedSet(MarkAcked(acked, acks)) == AckedSet(acked) + AckNumbers(acks)
  {
    forall n ensures n in AckedSet(MarkAcked(acked, acks)) <==> n in AckedSet(acked) + AckNumbers(acks) {
      MarkAckedAt(acked, acks, n);
    }
  }

  lemma {:induction false} AckNumbersAppend(xs: seq<seq<byte>>, ys: seq<seq<byte>>)
    ensures AckNumbers(xs + ys) == AckNumbers(xs) + AckNumbers(ys)
  {
    if ys != [] {
      var init := ys[..|ys| - 1];
      AckNumbersAppend(xs, init);
      assert (xs + ys)[..|xs + ys| - 1] == xs + init;
      assert (xs + ys)[|xs + ys| - 1] == ys[|ys| - 1];
      assert AckNumbers(xs + ys) == AckNumbers(xs + init) + AckOf(ys[|ys| - 1]);
      assert AckNumbers(ys) == AckNumbers(init) + AckOf(ys[|ys| - 1]);
    } else {
      assert xs + ys == xs;
    }
  }

  /** Every datagram of a batch contributes its acknowledgement. */
  lemma {:induction false} AckNumbersHas(acks: seq<seq<byte>>, d: seq<byte>)
    requires d in acks
    ensures AckOf(d) <= AckNumbers(acks)
  {
    var init := acks[..|acks| - 1];
    if d != acks[|acks| - 1] {
      assert d in init by {
        var k :| 0 <= k < |acks| && acks[k] == d;
        assert init[k] == d;
      }
      AckNumbersHas(init, d);
    }
  }

  lemma {:induction false} AckNumbersSub(acks: seq<seq<byte>>, again: seq<seq<byte>>)
    requires forall d :: d in again ==> d in acks
    ensures AckNumbers(again) <= AckNumbers(acks)
  {
    if again != [] {
      var init := again[..|again| - 1];
      forall d | d in init ensures d in acks {
        var k :| 0 <= k < |init| && init[k] == d;
        assert again[k] == d;
      }
      AckNumbersSub(acks, init);
      AckNumbersHas(acks, again[|again| - 1]);
    }
  }

  /**
   * A repeated ACK, whether inside the same batch or in a later one,
   * changes nothing.
   */
  lemma AckIdempotent(acked: map<u32, bool>, acks: seq<seq<byte>>, again: seq<seq<byte>>)
    requires forall d :: d in again ==> d in acks
    ensures AckNumbers(acks + again) == AckNumbers(acks)
    ensures MarkAcked(MarkAcked(acked, acks), again) == MarkAcked(acked, acks)
  {
    AckNumbersSub(acks, again);
    AckNumbersAppend(acks, again);
    var once := MarkAcked(acked, acks);
    var twice := MarkAcked(once, again);
    forall n ensures n in twice <==> n in once {
      MarkAckedAt(once, again, n);
      MarkAckedAt(acked, acks, n);
    }
    forall n | n in twice ensures twice[n] == once[n] {
      MarkAckedAt(once, again, n);
      MarkAckedAt(acked, acks, n);
    }
  }

  /** `pending_packets`: the packets whose flag is not set, in their original order. */
  function Unacked(ps: seq<Packet>, acked: map<u32, bool>): (r: seq<Packet>)
    ensures forall p :: p in r ==> p in ps && !IsAcked(acked, p.packetNumber)
  {
    if ps == [] then []
    else (if IsAcked(acked, ps[0].packetNumber) then [] else [ps[0]]) + Unacked(ps[1..], acked)
  }

  /** A packet is pending exactly when it is one of the packets and its flag is not set. */
  lemma {:induction false} UnackedMembers(ps: seq<Packet>, acked: map<u32, bool>, p: Packet)
    ensures p in Unacked(ps, acked) <==> p in ps && !IsAcked(acked, p.packetNumber)
  {
    if ps != [] {
      UnackedMembers(ps[1..], acked, p);
      assert ps == [ps[0]] + ps[1..];
    }
  }

  /** Filtering keeps the original ascending order. */
  lemma {:induction false} UnackedAscending(ps: seq<Packet>, acked: map<u32, bool>)
    requires Ascending(ps)
    ensures Ascending(Unacked(ps, acked))
  {
    if ps != [] {
      var tail := ps[1..];
      AscendingTail(ps);
      UnackedAscending(tail, acked);
      var rest := Unacked(tail, acked);
      if !IsAcked(acked, ps[0].packetNumber) {
        AscendingCons(ps[0], rest);
      }
    }
  }

  /** Nothing is pending exactly when every packet is acknowledged. */
  lemma UnackedEmpty(ps: seq<Packet>, acked: map<u32, bool>)
    ensures Unacked(ps, acked) == [] <==> forall p :: p in ps ==> IsAcked(acked, p.packetNumber)
  {
    if Unacked(ps, acked) != [] {
      var p := Unacked(ps, acked)[0];
      assert p in Unacked(ps, acked);
    } else {
      forall p | p in ps ensures IsAcked(acked, p.packetNumber) {
        UnackedMembers(ps, acked, p);
      }
    }
  }

  /** With no flag set, every packet is pending. */
  lemma {:induction false} UnackedNoneAcked(ps: seq<Packet>, acked: map<u32, bool>)
    requires forall n :: n in acked ==> !acked[n]
    ensures Unacked(ps, acked) == ps
  {
    if ps != [] {
      UnackedNoneAcked(ps[1..], acked);
      assert ps == [ps[0]] + ps[1..];
    }
  }

  /**
   * The pending list depends only on the flags of the packets' own numbers:
   * an ACK for a number that is no packet's leaves it unchanged.
   */
  lemma {:induction false} UnackedOnlyOwnNumbers(ps: seq<Packet>, a: map<u32, bool>, b: map<u32, bool>)
    requires forall p :: p in ps ==> (IsAcked(a, p.packetNumber) <==> IsAcked(b, p.packetNumber))
    ensures Unacked(ps, a) == Unacked(ps, b)
  {
    if ps != [] {
      assert ps[0] in ps;
      assert forall p :: p in ps[1..] ==> p in ps;
      UnackedOnlyOwnNumbers(ps[1..], a, b);
    }
  }

  /**
   * Flags only go from false to true, so each round's pending list is the
   * previous one filtered again: a subsequence of it, in the same order.
   */
  lemma {:induction false} UnackedShrinks(ps: seq<Packet>, a: map<u32, bool>, b: map<u32, bool>)
    requires AckedSet(a) <= AckedSet(b)
    ensures Unacked(ps, b) == Unacked(Unacked(ps, a), b)
  {
    if ps != [] {
      UnackedShrinks(ps[1..], a, b);
      var n := ps[0].packetNumber;
      if IsAcked(a, n) {
        assert n in AckedSet(a);
        assert IsAcked(b, n);
        assert Unacked(ps, a) == Unacked(ps[1..], a);
        assert Unacked(ps, b) == Unacked(ps[1..], b);
      } else {
        assert Unacked(ps, a) == [ps[0]] + Unacked(ps[1..], a);
        assert Unacked(ps, a)[1..] == Unacked(ps[1..], a);
      }
    }
  }

  /** The serialized packets, in order: what one round puts on the wire. */
  function Frames(ps: seq<Packet>): (r: seq<seq<byte>>)
    ensures |r| == |ps|
  {
    if ps == [] then [] else Frames(ps[..|ps| - 1]) + [Serialize(ps[|ps| - 1])]
  }

  /** Each frame of a round decodes to the packet it was made from. */
  lemma {:induction false} FramesDecode(ps: seq<Packet>)
    ensures forall j :: 0 <= j < |ps| ==> Deserialize(Frames(ps)[j]) == Success(ps[j])
  {
    if ps != [] {
      var init := ps[..|ps| - 1];
      FramesDecode(init);
      DeserializeSerialize(ps[|ps| - 1]);
      forall j | 0 <= j < |init| ensures Frames(ps)[j] == Frames(init)[j] && ps[j] == init[j] {
      }
    }
  }

  /** The sending half of a round: every pending packet is serialized and sent, in order. */
  method SendPending(pending: seq<Packet>) returns (sent: seq<seq<byte>>)
    ensures sent == Frames(pending)
  {
    sent := [];
    for j := 0 to |pending|
      invariant sent == Frames(pending[..j])
    {
      assert pending[..j + 1][..j] == pending[..j];
      sent := sent + [Serialize(pending[j])];
    }
    assert pending[..|pending|] == pending;
  }

  /** The `try_recv_from` loop: every ACK datagram of the batch is applied to the flags. */
  method ApplyAcks(acked: map<u32, bool>, acks: seq<seq<byte>>) returns (result: map<u32, bool>)
    ensures result == MarkAcked(acked, acks)
  {
    result := acked;
    for i := 0 to |acks|
      invariant result == MarkAcked(acked, acks[..i])
    {
      var datagram := acks[i];
      assert acks[..i + 1][..i] == acks[..i];
      if |datagram| >= 4 {
        result := result[BEToU32(datagram[..4]) := true];
      }
    }
    assert acks[..|acks|] == acks;
  }

  /**
   * The retry counters after the counting loop has gone over `pending`:
   * each packet's counter goes up by one, a missing counter starting at 0.
   */
  function Bumped(retries: map<u32, nat>, pending: seq<Packet>): (r: map<u32, nat>)
    ensures retries.Keys <= r.Keys
  {
    if pending == [] then retries
    else
      var before := Bumped(retries, pending[..|pending| - 1]);
      var n := pending[|pending| - 1].packetNumber;
      before[n := RetryCount(before, n) + 1]
  }

  /**
   * Pointwise meaning of Bumped for distinct numbers: one more for each
   * pending number, the others unchanged, and no counter removed.
   */
  lemma {:induction false} BumpedAt(retries: map<u32, nat>, pending: seq<Packet>, n: u32)
    requires Ascending(pending)
    ensures n in Bumped(retries, pending) <==> n in retries || n in Numbers(pending)
    ensures RetryCount(Bumped(retries, pending), n) == RetryCount(retries, n) + (if n in Numbers(pending) then 1 else 0)
  {
    if pending != [] {
      var init := pending[..|pending| - 1];
      var last := pending[|pending| - 1].packetNumber;
      assert Ascending(init);
      BumpedAt(retries, init, n);
      if n == last {
        NumbersAt(init, n);
      }
    }
  }

  /**
   * The numbers of the packets of `pending` whose counter is above
   * MAX_RETRIES, in pending order: the ones `run_client` reports as not
   * delivered.
   */
  function OverLimit(pending: seq<Packet>, retries: map<u32, nat>): (r: seq<u32>)
    ensures |r| <= |pending|
  {
    if pending == [] then []
    else
      var last := pending[|pending| - 1].packetNumber;
      OverLimit(pending[..|pending| - 1], retries)
        + (if RetryCount(retries, last) > MAX_RETRIES then [last] else [])
  }

  /** Only the counters of the listed packets matter to OverLimit. */
  lemma {:induction false} OverLimitFrame(pending: seq<Packet>, retries: map<u32, nat>, n: u32, c: nat)
    requires n !in Numbers(pending)
    ensures OverLimit(pending, retries[n := c]) == OverLimit(pending, retries)
  {
    if pending != [] {
      OverLimitFrame(pending[..|pending| - 1], retries, n, c);
    }
  }

  /**
   * The counting loop: each pending packet's counter goes up by one, the
   * numbers whose new count exceeds MAX_RETRIES are reported in
   * `exhausted`, and nothing is removed from pending.
   */
  method BumpRetries(retries: map<u32, nat>, pending: seq<Packet>)
    returns (result: map<u32, nat>, exhausted: seq<u32>)
    requires Ascending(pending)
    ensures result == Bumped(retries, pending)
    ensures exhausted == OverLimit(pending, result)
  {
    result := retries;
    exhausted := [];
    for j := 0 to |pending|
      invariant result == Bumped(retries, pending[..j])
      invariant exhausted == OverLimit(pending[..j], result)
    {
      var n := pending[j].packetNumber;
      var count := RetryCount(result, n) + 1;
      BumpedNext(retries, pending, j);
      result := result[n := count];
      if count > MAX_RETRIES {
        exhausted := exhausted + [n];
      }
    }
    assert pending[..|pending|] == pending;
  }

  /** One more packet of an ascending list: its counter grows by one and only it can join OverLimit. */
  lemma BumpedNext(retries: map<u32, nat>, pending: seq<Packet>, j: nat)
    requires Ascending(pending) && j < |pending|
    ensures var before := Bumped(retries, pending[..j]);
      var n := pending[j].packetNumber;
      var after := before[n := RetryCount(before, n) + 1];
      && Bumped(retries, pending[..j + 1]) == after
      && OverLimit(pending[..j + 1], after)
         == OverLimit(pending[..j], before) + (if RetryCount(after, n) > MAX_RETRIES then [n] else [])
  {
    var before := Bumped(retries, pending[..j]);
    var n := pending[j].packetNumber;
    assert pending[..j + 1][..j] == pending[..j];
    assert n !in Numbers(pending[..j]) by {
      NumbersAt(pending[..j], n);
    }
    OverLimitFrame(pending[..j], before, n, RetryCount(before, n) + 1);
  }

  // ---------------------------------------------------------------------
  // The whole retransmission loop, one ACK batch per round

  /** The sender state after one round that received the ACK datagrams `acks`. */
  function Step(packets: seq<Packet>, s: Sender, acks: seq<seq<byte>>): (r: Sender)
    ensures AckedSet(r.acked) == AckedSet(s.acked) + AckNumbers(acks)
    ensures forall p :: p in r.pending ==> p in packets && !IsAcked(r.acked, p.packetNumber)
  {
    MarkAckedSet(s.acked, acks);
    var acked := MarkAcked(s.acked, acks);
    var pending := Unacked(packets, acked);
    Sender(acked, Bumped(s.retries, pending), pending)
  }

  /**
   * One round of the `while` loop of `run_client`: send every pending
   * packet, apply the ACK datagrams that arrived during the wait, recompute
   * `pending_packets`, and bump the retry counter of every packet still
   * pending. A counter above MAX_RETRIES is only reported in `exhausted`
   * (`run_client` logs it); the packet stays pending.
   */
  method Round(packets: seq<Packet>, s: Sender, acks: seq<seq<byte>>)
    returns (sent: seq<seq<byte>>, next: Sender, exhausted: seq<u32>)
    requires Ascending(packets)
    ensures sent == Frames(s.pending)
    ensures next == Step(packets, s, acks)
    ensures exhausted == OverLimit(next.pending, next.retries)
  {
    sent := SendPending(s.pending);
    var acked := ApplyAcks(s.acked, acks);
    var pending := Unacked(packets, acked);
    UnackedAscending(packets, acked);
    var retries;
    retries, exhausted := BumpRetries(s.retries, pending);
    next := Sender(acked, retries, pending);
  }

  /** The sender state after the first `k` rounds, round `i` having received `batches[i]`. */
  function After(packets: seq<Packet>, init: Sender, batches: seq<seq<seq<byte>>>, k: nat): Sender
    requires k <= |batches|
  {
    if k == 0 then init else Step(packets, After(packets, init, batches, k - 1), batches[k - 1])
  }

  /** `pending_packets` when the loop condition is checked before round `k`. */
  function PendingBefore(packets: seq<Packet>, init: Sender, batches: seq<seq<seq<byte>>>, k: nat): seq<Packet>
    requires k <= |batches|
  {
    After(packets, init, batches, k).pending
  }

  /**
   * The number of rounds the loop runs when it is entered before round
   * `k`: it stops at the first round before which nothing is pending, or
   * when the batches run out.
   */
  function StopRound(packets: seq<Packet>, init: Sender, batches: seq<seq<seq<byte>>>, k: nat): (r: nat)
    requires k <= |batches|
    ensures k <= r <= |batches|
    decreases |batches| - k
  {
    if k == |batches| || PendingBefore(packets, init, batches, k) == [] then k
    else StopRound(packets, init, batches, k + 1)
  }

  /** StopRound is the first round before which nothing is pending, if there is one. */
  lemma {:induction false} StopRoundFirst(packets: seq<Packet>, init: Sender, batches: seq<seq<seq<byte>>>, k: nat)
    requires k <= |batches|
    ensures StopRound(packets, init, batches, k) == |batches|
            || PendingBefore(packets, init, batches, StopRound(packets, init, batches, k)) == []
    ensures forall r :: k <= r < StopRound(packets, init, batches, k) ==> PendingBefore(packets, init, batches, r) != []
    decreases |batches| - k
  {
    var stop := StopRound(packets, init, batches, k);
    if k < |batches| && PendingBefore(packets, init, batches, k) != [] {
      StopRoundFirst(packets, init, batches, k + 1);
      assert stop == StopRound(packets, init, batches, k + 1);
      forall r | k <= r < stop ensures PendingBefore(packets, init, batches, r) != [] {
        if r == k {
        }
      }
    } else {
      assert stop == k;
    }
  }

  /** Every datagram sent during the first `k` rounds, in sending order. */
  function SentAfter(packets: seq<Packet>, init: Sender, batches: seq<seq<seq<byte>>>, k: nat): seq<seq<byte>>
    requires k <= |batches|
  {
    if k == 0 then []
    else SentAfter(packets, init, batches, k - 1) + Frames(PendingBefore(packets, init, batches, k - 1))
  }

  /**
   * The `while pending_packets.len() > 0` loop of `run_client`, run for at
   * most one round per ACK batch: it stops as soon as nothing is pending
   * or the batches run out. Every round is a Round.
   */
  method RunRounds(packets: seq<Packet>, init: Sender, batches: seq<seq<seq<byte>>>)
    returns (sent: seq<seq<byte>>, final: Sender, rounds: nat)
    requires Ascending(packets)
    requires init.pending == packets
    ensures rounds == StopRound(packets, init, batches, 0)
    ensures final == After(packets, init, batches, rounds)
    ensures sent == SentAfter(packets, init, batches, rounds)
    ensures FromPackets(sent, packets)
  {
    sent := [];
    final := init;
    rounds := 0;
    while final.pending != [] && rounds < |batches|
      invariant rounds <= |batches|
      invariant StopRound(packets, init, batches, rounds) == StopRound(packets, init, batches, 0)
      invariant final == After(packets, init, batches, rounds)
      invariant sent == SentAfter(packets, init, batches, rounds)
      invariant FromPackets(sent, packets)
      invariant forall p :: p in final.pending ==> p in packets
      decreases |batches| - rounds
    {
      assert PendingBefore(packets, init, batches, rounds) == final.pending;
      SentStep(sent, final.pending, packets);
      var frames, next, exhausted := Round(packets, final, batches[rounds]);
      sent := sent + frames;
      final := next;
      rounds := rounds + 1;
    }
    assert PendingBefore(packets, init, batches, rounds) == final.pending;
  }

  /**
   * `run_client` after the socket is bound: split the file with
   * CLIENT_FILE_ID, initialise the flags and counters, run the rounds,
   * and send FINISH once nothing is pending. `finished` is false when the
   * batches ran out first (`run_client` would go on retransmitting).
   */
  method RunClient(buffer: seq<byte>, batches: seq<seq<seq<byte>>>)
    returns (sent: seq<seq<byte>>, final: Sender, rounds: nat, finished: bool)
    ensures rounds <= |batches|
    ensures finished <==> final.pending == []
    ensures !finished ==> rounds == |batches|
    ensures final.pending == Unacked(Split(buffer, CLIENT_FILE_ID), final.acked)
    ensures finished ==> forall p :: p in Split(buffer, CLIENT_FILE_ID) ==> IsAcked(final.acked, p.packetNumber)
    ensures finished ==> |sent| > 0 && sent[|sent| - 1] == FINISH_SIGNAL
    ensures FromPackets(if finished then sent[..|sent| - 1] else sent, Split(buffer, CLIENT_FILE_ID))
    ensures |buffer| == 0 ==> finished && rounds == 0 && sent == [FINISH_SIGNAL]
    ensures var ps := Split(buffer, CLIENT_FILE_ID);
      && rounds == StopRound(ps, Fresh(ps), batches, 0)
      && final == After(ps, Fresh(ps), batches, rounds)
      && sent == SentAfter(ps, Fresh(ps), batches, rounds) + (if finished then [FINISH_SIGNAL] else [])
    ensures forall n: u32 :: IsAcked(final.acked, n) <==> exists j :: 0 <= j < rounds && n in AckNumbers(batches[j])
  {
    var packets := ReadFileAndSplit(buffer, CLIENT_FILE_ID);
    SplitAscending(buffer, CLIENT_FILE_ID);
    var init := InitialSender(packets);
    sent, final, rounds := RunRounds(packets, init, batches);
    StopRoundFirst(packets, init, batches, 0);
    PendingIsUnacked(packets, init, batches, rounds);
    AckedExactly(packets, batches, rounds);
    finished := final.pending == [];
    if finished {
      UnackedEmpty(packets, final.acked);
      sent := sent + [FINISH_SIGNAL];
    }
  }

  /** With no flag set at the start, the pending list is always the unacknowledged packets. */
  lemma PendingIsUnacked(packets: seq<Packet>, init: Sender, batches: seq<seq<seq<byte>>>, k: nat)
    requires k <= |batches|
    requires init.pending == packets
    requires forall n :: n in init.acked ==> !init.acked[n]
    ensures After(packets, init, batches, k).pending == Unacked(packets, After(packets, init, batches, k).acked)
  {
    if k == 0 {
      UnackedNoneAcked(packets, init.acked);
    }
  }

  /** Every datagram of `frames` decodes to one of `packets`. */
  predicate FromPackets(frames: seq<seq<byte>>, packets: seq<Packet>)
  {
    forall j :: 0 <= j < |frames| ==> Deserialize(frames[j]).Success? && Deserialize(frames[j]).value in packets
  }

  lemma FromPacketsAppend(xs: seq<seq<byte>>, ys: seq<seq<byte>>, packets: seq<Packet>)
    requires FromPackets(xs, packets) && FromPackets(ys, packets)
    ensures FromPackets(xs + ys, packets)
  {
    forall j | 0 <= j < |xs + ys|
      ensures Deserialize((xs + ys)[j]).Success? && Deserialize((xs + ys)[j]).value in packets
    {
      if j < |xs| {
        assert (xs + ys)[j] == xs[j];
      } else {
        assert (xs + ys)[j] == ys[j - |xs|];
      }
    }
  }

  /** The frames of packets of the file decode to packets of the file. */
  lemma {:induction false} FramesFromPackets(ps: seq<Packet>, packets: seq<Packet>)
    requires forall p :: p in ps ==> p in packets
    ensures FromPackets(Frames(ps), packets)
  {
    if ps != [] {
      var init := ps[..|ps| - 1];
      var last := ps[|ps| - 1];
      forall p | p in init ensures p in packets {
        var k :| 0 <= k < |init| && init[k] == p;
        assert ps[k] == p;
      }
      FramesFromPackets(init, packets);
      DeserializeSerialize(last);
      assert FromPackets([Serialize(last)], packets);
      FromPacketsAppend(Frames(init), [Serialize(last)], packets);
    }
  }

  /** Sending the frames of packets of the file keeps every datagram sent decodable into one. */
  lemma SentStep(sent: seq<seq<byte>>, pending: seq<Packet>, packets: seq<Packet>)
    requires FromPackets(sent, packets)
    requires forall p :: p in pending ==> p in packets
    ensures FromPackets(sent + Frames(pending), packets)
  {
    FramesFromPackets(pending, packets);
    FromPacketsAppend(sent, Frames(pending), packets);
  }

  // ---------------------------------------------------------------------
  // What the rounds guarantee

  /** The numbers reported as exhausted are exactly the pending ones whose counter passed MAX_RETRIES. */
  lemma {:induction false} OverLimitMembers(pending: seq<Packet>, retries: map<u32, nat>, n: u32)
    ensures n in OverLimit(pending, retries) <==> n in Numbers(pending) && RetryCount(retries, n) > MAX_RETRIES
  {
    if pending != [] {
      OverLimitMembers(pending[..|pending| - 1], retries, n);
    }
  }

  /**
   * The pending list only shrinks from one round to the next: the packets
   * pending before round k + 1 are those pending before round k that are
   * still unacknowledged, in the same order.
   */
  lemma PendingShrinks(packets: seq<Packet>, init: Sender, batches: seq<seq<seq<byte>>>, k: nat)
    requires k < |batches|
    requires init.pending == packets
    ensures PendingBefore(packets, init, batches, k + 1)
            == Unacked(PendingBefore(packets, init, batches, k), After(packets, init, batches, k + 1).acked)
  {
    if k > 0 {
      var before := After(packets, init, batches, k).acked;
      MarkAckedSet(before, batches[k]);
      UnackedShrinks(packets, before, After(packets, init, batches, k + 1).acked);
    }
  }

  /**
   * A packet still pending after k rounds has had its counter bumped in
   * every one of them; once k exceeds MAX_RETRIES it is reported, and it is
   * still sent again.
   */
  lemma {:induction false} PendingRetries(packets: seq<Packet>, init: Sender, batches: seq<seq<seq<byte>>>, k: nat, p: Packet)
    requires k <= |batches|
    requires Ascending(packets)
    requires init.pending == packets
    requires p in PendingBefore(packets, init, batches, k)
    ensures RetryCount(After(packets, init, batches, k).retries, p.packetNumber)
            == RetryCount(init.retries, p.packetNumber) + k
  {
    if k > 0 {
      var j := k - 1;
      var prev := After(packets, init, batches, j);
      var next := After(packets, init, batches, k);
      assert next == Step(packets, prev, batches[j]);
      PendingShrinks(packets, init, batches, j);
      UnackedMembers(prev.pending, next.acked, p);
      PendingRetries(packets, init, batches, j, p);
      UnackedAscending(packets, next.acked);
      BumpedPending(prev.retries, next.pending, p);
    }
  }

  /** The counting loop adds exactly one to the counter of each pending packet. */
  lemma BumpedPending(retries: map<u32, nat>, pending: seq<Packet>, p: Packet)
    requires Ascending(pending)
    requires p in pending
    ensures RetryCount(Bumped(retries, pending), p.packetNumber) == RetryCount(retries, p.packetNumber) + 1
  {
    BumpedAt(retries, pending, p.packetNumber);
    NumbersAt(pending, p.packetNumber);
  }

  /**
   * A packet whose ACK arrives is never sent again: once its number is
   * acknowledged before round k, it is not pending before any later round.
   */
  lemma AckedNotResent(packets: seq<Packet>, init: Sender, batches: seq<seq<seq<byte>>>, k: nat, m: nat, p: Packet)
    requires 0 < k <= m <= |batches|
    requires IsAcked(After(packets, init, batches, k).acked, p.packetNumber)
    ensures p !in PendingBefore(packets, init, batches, m)
  {
    AckedGrows(packets, init, batches, k, m);
    assert p.packetNumber in AckedSet(After(packets, init, batches, k).acked);
    UnackedMembers(packets, After(packets, init, batches, m).acked, p);
  }

  /** Flags only go from false to true over the rounds. */
  lemma {:induction false} AckedGrows(packets: seq<Packet>, init: Sender, batches: seq<seq<seq<byte>>>, k: nat, m: nat)
    requires k <= m <= |batches|
    ensures AckedSet(After(packets, init, batches, k).acked) <= AckedSet(After(packets, init, batches, m).acked)
    decreases m - k
  {
    if k < m {
      AckedGrows(packets, init, batches, k + 1, m);
      MarkAckedSet(After(packets, init, batches, k).acked, batches[k]);
    }
  }

  /** The numbers named by the ACK batches of the first `k` rounds. */
  function AckedBy(batches: seq<seq<seq<byte>>>, k: nat): set<u32>
    requires k <= |batches|
  {
    if k == 0 then {} else AckedBy(batches, k - 1) + AckNumbers(batches[k - 1])
  }

  /** A number is named by the first `k` batches exactly when one of those batches names it. */
  lemma {:induction false} AckedByAt(batches: seq<seq<seq<byte>>>, k: nat, n: u32)
    requires k <= |batches|
    ensures n in AckedBy(batches, k) <==> exists j :: 0 <= j < k && n in AckNumbers(batches[j])
  {
    if k > 0 {
      AckedByAt(batches, k - 1, n);
    }
  }

  /**
   * After `k` rounds the acknowledged numbers are those acknowledged at
   * the start together with every number an ACK of the first `k` batches
   * names, and no other.
   */
  lemma {:induction false} AckedAfter(packets: seq<Packet>, init: Sender, batches: seq<seq<seq<byte>>>, k: nat)
    requires k <= |batches|
    ensures AckedSet(After(packets, init, batches, k).acked) == AckedSet(init.acked) + AckedBy(batches, k)
  {
    if k > 0 {
      AckedAfter(packets, init, batches, k - 1);
      MarkAckedSet(After(packets, init, batches, k - 1).acked, batches[k - 1]);
    }
  }

  /**
   * Starting from the fresh state, a number is acknowledged after `k`
   * rounds exactly when an ACK datagram of one of the first `k` batches
   * names it.
   */
  lemma AckedExactly(packets: seq<Packet>, batches: seq<seq<seq<byte>>>, k: nat)
    requires k <= |batches|
    ensures forall n: u32 :: IsAcked(After(packets, Fresh(packets), batches, k).acked, n)
                             <==> exists j :: 0 <= j < k && n in AckNumbers(batches[j])
  {
    var acked := After(packets, Fresh(packets), batches, k).acked;
    AckedAfter(packets, Fresh(packets), batches, k);
    InitFlagsAt(|packets|);
    forall n: u32 ensures IsAcked(acked, n) <==> exists j :: 0 <= j < k && n in AckNumbers(batches[j]) {
      AckedByAt(batches, k, n);
      assert IsAcked(acked, n) <==> n in AckedSet(acked);
      assert n !in AckedSet(InitFlags(|packets|));
    }
  }

  /** A round whose ACKs cover every packet number ends the loop. */
  lemma AllAckedStops(packets: seq<Packet>, init: Sender, batches: seq<seq<seq<byte>>>, k: nat)
    requires k < |batches|
    requires forall p :: p in packets ==> p.packetNumber in AckNumbers(batches[k])
    ensures PendingBefore(packets, init, batches, k + 1) == []
  {
    var acked := After(packets, init, batches, k + 1).acked;
    forall p | p in packets ensures IsAcked(acked, p.packetNumber) {
      MarkAckedAt(After(packets, init, batches, k).acked, batches[k], p.packetNumber);
    }
    UnackedEmpty(packets, acked);
  }

  /** A number no ACK batch before round k names is still unacknowledged before round k. */
  lemma {:induction false} NeverAckedFlag(packets: seq<Packet>, init: Sender, batches: seq<seq<seq<byte>>>, k: nat, n: u32)
    requires k <= |batches|
    requires !IsAcked(init.acked, n)
    requires forall j :: 0 <= j < k ==> n !in AckNumbers(batches[j])
    ensures !IsAcked(After(packets, init, batches, k).acked, n)
  {
    if k > 0 {
      NeverAckedFlag(packets, init, batches, k - 1, n);
      var prev := After(packets, init, batches, k - 1);
      MarkAckedAt(prev.acked, batches[k - 1], n);
    }
  }

  /**
   * Exceeding MAX_RETRIES only reports: a packet that no ACK ever names is
   * still pending before round k, and from round MAX_RETRIES + 1 on it is
   * reported as exhausted, so the loop keeps resending it.
   */
  lemma RetryCeiling(packets: seq<Packet>, init: Sender, batches: seq<seq<seq<byte>>>, k: nat, p: Packet)
    requires k <= |batches|
    requires Ascending(packets)
    requires init.pending == packets
    requires forall n :: n in init.acked ==> !init.acked[n]
    requires p in packets
    requires forall j :: 0 <= j < k ==> p.packetNumber !in AckNumbers(batches[j])
    ensures p in PendingBefore(packets, init, batches, k)
    ensures k > MAX_RETRIES ==>
              p.packetNumber in OverLimit(PendingBefore(packets, init, batches, k), After(packets, init, batches, k).retries)
  {
    var after := After(packets, init, batches, k);
    NeverAckedFlag(packets, init, batches, k, p.packetNumber);
    PendingIsUnacked(packets, init, batches, k);
    UnackedMembers(packets, after.acked, p);
    PendingRetries(packets, init, batches, k, p);
    OverLimitMembers(after.pending, after.retries, p.packetNumber);
    NumbersAt(after.pending, p.packetNumber);
    var i :| 0 <= i < |after.pending| && after.pending[i] == p;
  }
}
