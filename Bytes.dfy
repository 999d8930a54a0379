/**
 * Fixed-width integers and the big-endian u32 encoding shared by the frame
 * header (`WriteBytesExt::write_u32::<BigEndian>` / `ReadBytesExt::read_u32`),
 * the server's ACK (`u32::to_be_bytes`) and the client's ACK decoding
 * (`u32::from_be_bytes`).
 */
module Bytes {

  type byte = b: int | 0 <= b < 0x100
  type u32 = x: int | 0 <= x < 0x1_0000_0000

  const U32_MAX: u32 := 0xFFFF_FFFF

  /** The four bytes of `x`, most significant first. */
  function U32ToBE(x: u32): (r: seq<byte>)
    ensures |r| == 4
  {
    [x / 0x100_0000, (x / 0x1_0000) % 0x100, (x / 0x100) % 0x100, x % 0x100]
  }

  /** The u32 held big-endian in the first four bytes of `b`; later bytes are ignored. */
  function BEToU32(b: seq<byte>): (x: u32)
    requires |b| >= 4
    ensures x / 0x100_0000 == b[0]
  {
    var low := b[1] as int * 0x1_0000 + b[2] as int * 0x100 + b[3] as int;
    assert 0 <= low < 0x100_0000;
    b[0] as int * 0x100_0000 + low
  }

  /** Decoding the encoding of a u32 gives it back. */
  lemma BEToU32OfU32ToBE(x: u32)
    ensures BEToU32(U32ToBE(x)) == x
  {
    var q1, r0 := x / 0x100, x % 0x100;
    var q2, r1 := q1 / 0x100, q1 % 0x100;
    var q3, r2 := q2 / 0x100, q2 % 0x100;
    assert x == q1 * 0x100 + r0;
    assert q1 == q2 * 0x100 + r1;
    assert q2 == q3 * 0x100 + r2;
    assert x == q3 * 0x100_0000 + r2 * 0x1_0000 + r1 * 0x100 + r0;
    assert x / 0x100_0000 == q3;
    assert x / 0x1_0000 == q2;
  }

  /** Encoding the u32 read from four bytes gives those four bytes back. */
  lemma U32ToBEOfBEToU32(b: seq<byte>)
    requires |b| >= 4
    ensures U32ToBE(BEToU32(b)) == b[..4]
  {
    var x := BEToU32(b);
    var q1, q2 := b[0] as int * 0x1_0000 + b[1] as int * 0x100 + b[2] as int, b[0] as int * 0x100 + b[1] as int;
    assert x == q1 * 0x100 + b[3];
    assert x / 0x100 == q1 && x % 0x100 == b[3];
    assert q1 == q2 * 0x100 + b[2];
    assert x / 0x1_0000 == q2 by {
      assert x == q2 * 0x1_0000 + (b[2] as int * 0x100 + b[3] as int);
    }
    assert q1 % 0x100 == b[2] && q2 % 0x100 == b[1];
  }

  /** Different u32 values have different encodings (corollary of the round trip). */
  lemma U32ToBEInjective(x: u32, y: u32)
    requires U32ToBE(x) == U32ToBE(y)
    ensures x == y
  {
    BEToU32OfU32ToBE(x);
    BEToU32OfU32ToBE(y);
  }

  /** The two leading bytes of the encoding are the high half of the value. */
  lemma HighHalf(x: u32, hi: nat)
    requires hi < 0x1_0000
    ensures U32ToBE(x)[..2] == [hi / 0x100, hi % 0x100] <==> x / 0x1_0000 == hi
  {
    var q, r := x / 0x1_0000, x % 0x1_0000;
    assert x == q * 0x1_0000 + r;
    assert x == (q / 0x100) * 0x100_0000 + (q % 0x100) * 0x1_0000 + r;
    assert x / 0x100_0000 == q / 0x100;
    assert U32ToBE(x)[..2] == [q / 0x100, q % 0x100];
    assert q == (q / 0x100) * 0x100 + q % 0x100;
    assert hi == (hi / 0x100) * 0x100 + hi % 0x100;
    assert [q / 0x100, q % 0x100] == [hi / 0x100, hi % 0x100] <==> q / 0x100 == hi / 0x100 && q % 0x100 == hi % 0x100;
  }

  /** Every non-empty set of u32 values has a least element. */
  lemma {:induction false} LeastExists(s: set<u32>)
    requires s != {}
    ensures exists k :: k in s && forall j :: j in s ==> k <= j
    decreases |s|
  {
    var x :| x in s;
    var k := x;
    if exists z :: z in s && z < x {
      var others := s - {x};
      assert others != {} by {
        var z :| z in s && z < x;
        assert z in others;
      }
      LeastExists(others);
      var y :| y in others && forall j :: j in others ==> y <= j;
      var z :| z in s && z < x;
      assert z in others;
      LeastOfAdd(others, x, y);
      k := y;
      assert s == others + {x};
    } else {
      assert forall j :: j in s ==> x <= j;
    }
    assert k in s && forall j :: j in s ==> k <= j;
  }

  /** A least element stays least when a larger value joins the set. */
  lemma LeastOfAdd(others: set<u32>, x: u32, y: u32)
    requires y in others && forall j :: j in others ==> y <= j
    requires y < x
    ensures forall j :: j in others + {x} ==> y <= j
  {
  }
}
