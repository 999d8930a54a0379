/**
 * The data frame of packet.rs: a 12-byte header of three big-endian u32
 * fields (`file_id`, `packet_number`, `total_packets`) followed by the raw
 * payload. There is no length field: the payload is whatever follows the
 * header.
 */
module Packets {
  import opened Bytes
  import opened Wrappers

  /** Three u32 fields of four bytes each. */
  const HEADER_SIZE: nat := 12

  /**
   * The termination datagram, the six ASCII bytes "FINISH"; the client
   * sends it as `b"FINISH"` and the server compares against `FINISH_SIGNAL`.
   */
  const FINISH_SIGNAL: seq<byte> := [0x46, 0x49, 0x4E, 0x49, 0x53, 0x48]

  datatype Packet = Packet(fileId: u32, packetNumber: u32, totalPackets: u32, payload: seq<byte>)

  /** The only way `Cursor::read_u32` fails here: fewer than four bytes left. */
  datatype DecodeError = UnexpectedEof

  /**
   * `Packet::serialize`. The Rust version returns `io::Result`, but writing
   * into an in-memory `Vec` cannot fail, so the model is a total function.
   */
  function Serialize(p: Packet): (r: seq<byte>)
    ensures |r| == HEADER_SIZE + |p.payload|
    ensures BEToU32(r[0..4]) == p.fileId
    ensures BEToU32(r[4..8]) == p.packetNumber
    ensures BEToU32(r[8..12]) == p.totalPackets
    ensures r[HEADER_SIZE..] == p.payload
  {
    BEToU32OfU32ToBE(p.fileId);
    BEToU32OfU32ToBE(p.packetNumber);
    BEToU32OfU32ToBE(p.totalPackets);
    var r := U32ToBE(p.fileId) + U32ToBE(p.packetNumber) + U32ToBE(p.totalPackets) + p.payload;
    assert r[0..4] == U32ToBE(p.fileId);
    assert r[4..8] == U32ToBE(p.packetNumber);
    assert r[8..12] == U32ToBE(p.totalPackets);
    r
  }

  /**
   * `Packet::deserialize`: three big-endian reads, then `read_to_end` for
   * the payload (which may be empty).
   */
  function Deserialize(data: seq<byte>): (r: Result<Packet, DecodeError>)
    ensures r.Failure? <==> |data| < HEADER_SIZE
    ensures r.Success? ==> |r.value.payload| == |data| - HEADER_SIZE
    ensures r.Success? ==> r.value.payload == data[HEADER_SIZE..]
  {
    if |data| < 4 then Failure(UnexpectedEof)
    else
      var fileId := BEToU32(data[0..4]);
      if |data| < 8 then Failure(UnexpectedEof)
      else
        var packetNumber := BEToU32(data[4..8]);
        if |data| < 12 then Failure(UnexpectedEof)
        else
          var totalPackets := BEToU32(data[8..12]);
          Success(Packet(fileId, packetNumber, totalPackets, data[12..]))
  }

  /** Round trip: decoding an encoded packet gives back every field. */
  lemma DeserializeSerialize(p: Packet)
    ensures Deserialize(Serialize(p)) == Success(p)
  {
    var b := Serialize(p);
    assert b[12..] == p.payload;
  }

  /** Reverse round trip: every buffer of at least 12 bytes is the encoding of what it decodes to. */
  lemma SerializeDeserialize(b: seq<byte>)
    requires |b| >= HEADER_SIZE
    ensures Deserialize(b).Success?
    ensures Serialize(Deserialize(b).value) == b
  {
    var p := Deserialize(b).value;
    U32ToBEOfBEToU32(b[0..4]);
    U32ToBEOfBEToU32(b[4..8]);
    U32ToBEOfBEToU32(b[8..12]);
    assert b == b[0..4] + b[4..8] + b[8..12] + b[12..];
  }

  /** Packet numbers strictly increase along `ps` (so no number occurs twice). */
  predicate Ascending(ps: seq<Packet>)
  {
    forall i, j :: 0 <= i < j < |ps| ==> ps[i].packetNumber < ps[j].packetNumber
  }

  /** A packet numbered below every packet of an ascending list can go in front of it. */
  lemma AscendingCons(p: Packet, rest: seq<Packet>)
    requires Ascending(rest)
    requires forall q :: q in rest ==> p.packetNumber < q.packetNumber
    ensures Ascending([p] + rest)
  {
    var ps := [p] + rest;
    forall i, j | 0 <= i < j < |ps| ensures ps[i].packetNumber < ps[j].packetNumber {
      assert ps[j] == rest[j - 1];
      if i > 0 {
        assert ps[i] == rest[i - 1];
      } else {
        assert rest[j - 1] in rest;
      }
    }
  }

  /** Behind the first packet of an ascending list comes an ascending list of larger numbers. */
  lemma AscendingTail(ps: seq<Packet>)
    requires Ascending(ps) && ps != []
    ensures Ascending(ps[1..])
    ensures forall q :: q in ps[1..] ==> ps[0].packetNumber < q.packetNumber
  {
    var tail := ps[1..];
    forall i, j | 0 <= i < j < |tail| ensures tail[i].packetNumber < tail[j].packetNumber {
      assert tail[i] == ps[i + 1] && tail[j] == ps[j + 1];
    }
    forall q | q in tail ensures ps[0].packetNumber < q.packetNumber {
      var k :| 0 <= k < |tail| && tail[k] == q;
      assert ps[k + 1] == q;
    }
  }

  /** The packet numbers occurring in `ps`. */
  function Numbers(ps: seq<Packet>): set<u32>
  {
    if ps == [] then {} else Numbers(ps[..|ps| - 1]) + {ps[|ps| - 1].packetNumber}
  }

  /** A number is in Numbers(ps) exactly when some position of `ps` carries it. */
  lemma {:induction false} NumbersAt(ps: seq<Packet>, n: u32)
    ensures n in Numbers(ps) <==> exists k :: 0 <= k < |ps| && ps[k].packetNumber == n
  {
    if ps != [] {
      var init := ps[..|ps| - 1];
      NumbersAt(init, n);
      if n in Numbers(init) {
        var k :| 0 <= k < |init| && init[k].packetNumber == n;
        assert ps[k] == init[k];
      }
      if exists k :: 0 <= k < |ps| && ps[k].packetNumber == n {
        var k :| 0 <= k < |ps| && ps[k].packetNumber == n;
        if k < |init| {
          assert init[k] == ps[k];
        }
      }
    }
  }

  /** The payloads of `ps` joined in sequence order: the first packet's payload comes first. */
  function ConcatPayloads(ps: seq<Packet>): (r: seq<byte>)
    ensures ps != [] ==> ps[0].payload <= r
  {
    if ps == [] then [] else ConcatPayloads(ps[..|ps| - 1]) + ps[|ps| - 1].payload
  }
}
