/**
 * `compute_cksum`: the Internet checksum of the IP pseudo-header followed by
 * the segment, with the checksum word itself counted as zero.
 */
module TcpChecksum {
  import opened Bytes
  import opened TcpSegment

  /** Length of the IPv4 pseudo-header the checksum word index is laid out for. */
  const PseudoHeaderLen: nat := 12

  /** `cksum_data[6 + 8]`: the word holding the segment's checksum field behind a 12-byte pseudo-header. */
  const CksumWord: nat := 14

  /** Pseudo-header, segment, and a zero byte when the segment has odd length. */
  function CksumData(pseudo: seq<byte>, packet: seq<byte>): (r: seq<byte>)
    ensures |r| == |pseudo| + |packet| + |packet| % 2
    ensures r[..|pseudo|] == pseudo && r[|pseudo|..|pseudo| + |packet|] == packet
  {
    pseudo + packet + (if |packet| % 2 == 1 then [0] else [])
  }

  /** struct.unpack("! nH", ...): the data as big-endian 16-bit words. */
  function Words(b: seq<byte>): (r: seq<u16>)
    requires |b| % 2 == 0
    ensures |r| == |b| / 2
    ensures forall k :: 0 <= k < |r| ==> r[k] == b[2 * k] as int * 0x100 + b[2 * k + 1] as int
    decreases |b|
  {
    if b == [] then [] else [FromBE16(b[..2])] + Words(b[2..])
  }

  function Sum(ws: seq<u16>): (r: nat)
    ensures r <= 0xFFFF * |ws|
  {
    if ws == [] then 0 else ws[0] + Sum(ws[1..])
  }

  /**
   * The last line of compute_cksum as written: `~((s & 0xFFFF) + (s >> 16)) & 0xFFFF`,
   * a single fold of the carries above bit 15 followed by the complement. It
   * is the complement of the full end-around fold when one fold leaves no
   * carry, and one more than that for a 32-bit sum whose fold does.
   */
  function ChecksumFromSum(x: nat): (c: u16)
    ensures x % 0x1_0000 + x / 0x1_0000 <= 0xFFFF ==> c == 0xFFFF - FoldAll(x)
    ensures x < 0x1_0000_0000 && x % 0x1_0000 + x / 0x1_0000 > 0xFFFF ==> c == 0xFFFF - FoldAll(x) + 1
  {
    SingleFold(x);
    0xFFFF - (x % 0x1_0000 + x / 0x1_0000) % 0x1_0000
  }

  /**
   * `compute_cksum(ip_pseudo_header)` over the bytes of `raw_packet`. For any
   * segment that fits an IP datagram it is the intended checksum or one more.
   */
  function ComputeCksum(pseudo: seq<byte>, packet: seq<byte>): (r: u16)
    requires |pseudo| % 2 == 0 && |pseudo| + |packet| + |packet| % 2 > 2 * CksumWord + 1
    ensures |pseudo| + |packet| < 0x2_0000 ==>
              r == ComputeCksumFixed(pseudo, packet) || r == ComputeCksumFixed(pseudo, packet) + 1
  {
    var ws := Words(CksumData(pseudo, packet))[CksumWord := 0];
    assert |pseudo| + |packet| < 0x2_0000 ==> Sum(ws) < 0x1_0000_0000 by {
      if |pseudo| + |packet| < 0x2_0000 {
        assert |ws| <= 0x1_0000;
      }
    }
    ChecksumFromSum(Sum(ws))
  }

  // ---- The one's-complement sum as evidently intended ----

  /** Fold the carries back in until the sum fits in 16 bits. */
  function FoldAll(x: nat): (r: nat)
    ensures r <= 0xFFFF
    ensures r % 0xFFFF == x % 0xFFFF
    ensures x > 0 ==> r > 0
    ensures x <= 0xFFFF ==> r == x
    decreases x
  {
    if x <= 0xFFFF then x
    else
      var y := x % 0x1_0000 + x / 0x1_0000;
      assert x == 0xFFFF * (x / 0x1_0000) + y;
      ModAddMultiple(x / 0x1_0000, y);
      FoldAll(y)
  }

  lemma ModAddMultiple(k: nat, y: nat)
    ensures (0xFFFF * k + y) % 0xFFFF == y % 0xFFFF
  {
  }

  function ChecksumFromSumFixed(x: nat): (c: u16)
  {
    0xFFFF - FoldAll(x)
  }

  function ComputeCksumFixed(pseudo: seq<byte>, packet: seq<byte>): u16
    requires |pseudo| % 2 == 0 && |pseudo| + |packet| + |packet| % 2 > 2 * CksumWord + 1
  {
    ChecksumFromSumFixed(Sum(Words(CksumData(pseudo, packet))[CksumWord := 0]))
  }

  /**
   * The receiver's view (section 3.1 of RFC 793): the one's-complement sum of
   * all words, checksum field included, which is 0xFFFF for an intact segment.
   */
  function OnesComplementSum(pseudo: seq<byte>, packet: seq<byte>): (r: nat)
    requires |pseudo| % 2 == 0
    ensures r <= 0xFFFF
  {
    FoldAll(Sum(Words(CksumData(pseudo, packet))))
  }

  // ---- Properties ----

  lemma {:induction false} SumUpdate(ws: seq<u16>, k: nat, v: u16)
    requires k < |ws|
    ensures Sum(ws[k := v]) + ws[k] == Sum(ws) + v
    decreases |ws|
  {
    if k > 0 {
      assert ws[k := v][1..] == ws[1..][k - 1 := v];
      SumUpdate(ws[1..], k - 1, v);
    }
  }

  /**
   * Overwriting bytes 16 and 17 of the segment (its checksum field) leaves
   * every word but word 14 alone, and word 14 becomes those two bytes.
   */
  lemma {:induction false} WordsOfSplice(pseudo: seq<byte>, packet: seq<byte>, c: seq<byte>)
    requires |pseudo| == PseudoHeaderLen && |packet| >= HeaderLen && |c| == 2
    ensures var w := Words(CksumData(pseudo, packet));
            var w' := Words(CksumData(pseudo, packet[..16] + c + packet[18..]));
            && |w'| == |w| && w'[CksumWord := 0] == w[CksumWord := 0]
            && w'[CksumWord] == c[0] as int * 0x100 + c[1] as int
  {
    var packet' := packet[..16] + c + packet[18..];
    var d, d' := CksumData(pseudo, packet), CksumData(pseudo, packet');
    assert |packet'| == |packet|;
    forall i | 0 <= i < |d| && i != 28 && i != 29
      ensures d'[i] == d[i]
    {
      if 12 <= i < 12 + |packet| {
        assert d[i] == packet[i - 12] && d'[i] == packet'[i - 12];
      }
    }
    assert d'[28] == c[0] && d'[29] == c[1];
    var w, w' := Words(d), Words(d');
    forall k | 0 <= k < |w| && k != CksumWord
      ensures w'[k] == w[k]
    {
      assert d'[2 * k] == d[2 * k] && d'[2 * k + 1] == d[2 * k + 1];
    }
    assert w'[CksumWord := 0] == w[CksumWord := 0];
  }

  /** The checksum computed does not depend on the value already in the checksum field. */
  lemma CksumIgnoresStoredCksum(pseudo: seq<byte>, s: Segment, x: u16)
    requires |pseudo| == PseudoHeaderLen && HeaderFits(s)
    ensures ComputeCksum(pseudo, RawPacket(s.(cksum := x))) == ComputeCksum(pseudo, RawPacket(s))
    ensures ComputeCksumFixed(pseudo, RawPacket(s.(cksum := x))) == ComputeCksumFixed(pseudo, RawPacket(s))
  {
    CksumFieldSplice(s, x);
    WordsOfSplice(pseudo, RawPacket(s), BE16(x));
  }

  /**
   * get_raw_packet is stable: once the computed checksum is stored, computing
   * it again over the new `raw_packet` gives the stored value, and the value
   * sits in bytes 16 and 17 in network order.
   */
  lemma CksumStable(pseudo: seq<byte>, s: Segment)
    requires |pseudo| == PseudoHeaderLen && HeaderFits(s)
    ensures var t := s.(cksum := ComputeCksum(pseudo, RawPacket(s)));
            && ComputeCksum(pseudo, RawPacket(t)) == t.cksum
            && RawPacket(t)[16..18] == BE16(t.cksum)
  {
    CksumIgnoresStoredCksum(pseudo, s, ComputeCksum(pseudo, RawPacket(s)));
  }

  /** Zero bytes make zero words. */
  lemma {:induction false} ZeroWordsSum(b: seq<byte>)
    requires |b| % 2 == 0 && forall k :: 0 <= k < |b| ==> b[k] == 0
    ensures Sum(Words(b)) == 0
    decreases |b|
  {
    if b != [] {
      assert Words(b) == [FromBE16(b[..2])] + Words(b[2..]);
      assert Words(b)[1..] == Words(b[2..]);
      ZeroWordsSum(b[2..]);
    }
  }

  /** An all-zero pseudo-header and segment give the checksum 0xFFFF, the complement of a zero sum. */
  lemma ZeroChecksum(pseudo: seq<byte>, packet: seq<byte>)
    requires |pseudo| == PseudoHeaderLen && |packet| >= HeaderLen
    requires forall k :: 0 <= k < |pseudo| ==> pseudo[k] == 0
    requires forall k :: 0 <= k < |packet| ==> packet[k] == 0
    ensures ComputeCksum(pseudo, packet) == 0xFFFF
  {
    var d := CksumData(pseudo, packet);
    forall k | 0 <= k < |d|
      ensures d[k] == 0
    {
      if k < |pseudo| {
        assert d[k] == pseudo[k];
      } else if k < |pseudo| + |packet| {
        assert d[k] == packet[k - |pseudo|];
      }
    }
    var w := Words(d);
    ZeroWordsSum(d);
    assert w[CksumWord] == 0;
    assert w[CksumWord := 0] == w;
  }

  /** Adding the complement of a folded sum gives a sum that folds to all ones. */
  lemma FoldWithComplement(x: nat)
    ensures FoldAll(x + ChecksumFromSumFixed(x)) == 0xFFFF
  {
    var f := FoldAll(x);
    var k := x / 0xFFFF - f / 0xFFFF;
    assert x - f == 0xFFFF * k;
    assert k >= 0;
    var y := x + ChecksumFromSumFixed(x);
    assert y == 0xFFFF * (k + 1);
    ModAddMultiple(k + 1, 0);
    OnesFromResidue(FoldAll(y));
  }

  lemma OnesFromResidue(r: nat)
    requires 0 < r <= 0xFFFF && r % 0xFFFF == 0
    ensures r == 0xFFFF
  {
  }

  /**
   * A segment carrying the corrected checksum passes the receiver's check:
   * its one's-complement sum, checksum included, is 0xFFFF.
   */
  lemma {:induction false} FixedCksumVerifies(pseudo: seq<byte>, s: Segment)
    requires |pseudo| == PseudoHeaderLen && HeaderFits(s)
    ensures var t := s.(cksum := ComputeCksumFixed(pseudo, RawPacket(s)));
            OnesComplementSum(pseudo, RawPacket(t)) == 0xFFFF
  {
    var c := ComputeCksumFixed(pseudo, RawPacket(s));
    CksumFieldSplice(s, c);
    FixedCksumSumsToOnes(pseudo, RawPacket(s));
  }

  lemma FixedCksumSumsToOnes(pseudo: seq<byte>, packet: seq<byte>)
    requires |pseudo| == PseudoHeaderLen && |packet| >= HeaderLen
    ensures var c := ComputeCksumFixed(pseudo, packet);
            OnesComplementSum(pseudo, packet[..16] + BE16(c) + packet[18..]) == 0xFFFF
  {
    var c := ComputeCksumFixed(pseudo, packet);
    var x := Sum(Words(CksumData(pseudo, packet))[CksumWord := 0]);
    assert c == ChecksumFromSumFixed(x);
    SumOfSplice(pseudo, packet, c);
    FoldWithComplement(x);
  }

  /** Storing c in the checksum field adds c to the sum taken with word 14 zeroed. */
  lemma SumOfSplice(pseudo: seq<byte>, packet: seq<byte>, c: u16)
    requires |pseudo| == PseudoHeaderLen && |packet| >= HeaderLen
    ensures Sum(Words(CksumData(pseudo, packet[..16] + BE16(c) + packet[18..])))
            == Sum(Words(CksumData(pseudo, packet))[CksumWord := 0]) + c
  {
    var w := Words(CksumData(pseudo, packet[..16] + BE16(c) + packet[18..]));
    var z := Words(CksumData(pseudo, packet))[CksumWord := 0];
    assert w[CksumWord := 0] == z && w[CksumWord] == c by {
      WordsOfSplice(pseudo, packet, BE16(c));
    }
    assert z[CksumWord := c] == w;
    SumUpdate(z, CksumWord, c);
  }

  /** One fold of a 32-bit sum leaves at most one carry, which the full fold adds back. */
  lemma SingleFold(x: nat)
    ensures x % 0x1_0000 + x / 0x1_0000 <= 0xFFFF ==> FoldAll(x) == x % 0x1_0000 + x / 0x1_0000
    ensures x < 0x1_0000_0000 && x % 0x1_0000 + x / 0x1_0000 > 0xFFFF ==>
              FoldAll(x) == x % 0x1_0000 + x / 0x1_0000 - 0xFFFF
  {
    var y := x % 0x1_0000 + x / 0x1_0000;
    if x > 0xFFFF {
      assert FoldAll(x) == FoldAll(y);
      if x < 0x1_0000_0000 && y > 0xFFFF {
        assert y / 0x1_0000 == 1;
        assert FoldAll(y) == FoldAll(y % 0x1_0000 + 1);
      }
    }
  }

  /**
   * When the single fold as written leaves a carry (a 32-bit sum whose halves
   * add up past 0xFFFF), the segment it produces fails the receiver's check:
   * its one's-complement sum comes to 1 instead of 0xFFFF.
   */
  lemma AsWrittenFailsOnSecondCarry(x: nat)
    requires x < 0x1_0000_0000 && x % 0x1_0000 + x / 0x1_0000 > 0xFFFF
    ensures FoldAll(x + ChecksumFromSum(x)) == 1
    ensures ChecksumFromSum(x) != ChecksumFromSumFixed(x)
  {
    var hi := x / 0x1_0000;
    var y := x + ChecksumFromSum(x);
    assert y == 0xFFFF * (hi + 2) + 1 by {
      SecondCarryShape(x);
    }
    ModAddMultiple(hi + 2, 1);
    OneFromResidue(FoldAll(y));
    FoldWithComplement(x);
  }

  lemma SecondCarryShape(x: nat)
    requires x < 0x1_0000_0000 && x % 0x1_0000 + x / 0x1_0000 > 0xFFFF
    ensures x + ChecksumFromSum(x) == 0xFFFF * (x / 0x1_0000 + 2) + 1
  {
    var lo, hi := x % 0x1_0000, x / 0x1_0000;
    assert x == 0x1_0000 * hi + lo;
    assert hi < 0x1_0000;
    assert (lo + hi) % 0x1_0000 == lo + hi - 0x1_0000;
  }

  lemma OneFromResidue(r: nat)
    requires 0 < r <= 0xFFFF && r % 0xFFFF == 1
    ensures r == 1
  {
  }

  /**
   * A word sum of 0x1FFFF: as written the checksum is 0xFFFF and the
   * receiver's sum comes to 1; the intended checksum is 0xFFFE.
   */
  lemma SecondCarryExample()
    ensures ChecksumFromSum(0x1FFFF) == 0xFFFF
    ensures FoldAll(0x1FFFF + 0xFFFF) == 1
    ensures ChecksumFromSumFixed(0x1FFFF) == 0xFFFE
    ensures FoldAll(0x1FFFF + 0xFFFE) == 0xFFFF
  {
    AsWrittenFailsOnSecondCarry(0x1FFFF);
    assert FoldAll(0x1FFFF) == FoldAll(0x10000) == FoldAll(1) == 1;
    FoldWithComplement(0x1FFFF);
  }
}
