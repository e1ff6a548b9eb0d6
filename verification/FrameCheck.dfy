/**
 The frame that both send paths of raw_ibverbs put on the wire, and the check a receiver can run on it: one
 checksum over padding, masked headers, payload and trailer must leave the CRC-32 residue.
*/
module FrameCheck {
  import opened Bytes
  import opened Lfsr
  import opened Crc32
  import opened RawPacket
  import opened RawIbverbs
  import opened TwoBitErrors

  /** Headers, payload, and the checksum continued from the cached header checksum. */
  function Frame(header: seq<Byte>, headerCrc: bv32, payload: seq<Byte>): (f: seq<Byte>)
    ensures |f| == |header| + |payload| + CHECKSUM_SIZE
  {
    header + payload + Le32(Crc(headerCrc, payload))
  }

  predicate WellSized(frame: seq<Byte>) {
    |frame| >= TOTAL_HEADER_SIZE + CHECKSUM_SIZE
  }

  /** The bytes a receiver checks: everything after the Ethernet header, with the variant bits set. */
  function Covered(frame: seq<Byte>): (s: seq<Byte>)
    requires WellSized(frame)
    ensures |s| == |frame| - ETH_SIZE + 8
  {
    PADDING + OrVariant(frame[ETH_SIZE..TOTAL_HEADER_SIZE]) + frame[TOTAL_HEADER_SIZE..]
  }

  ghost predicate ReceiverAccepts(frame: seq<Byte>)
    requires WellSized(frame)
  {
    Crc(0, Covered(frame)) == RESIDUE
  }

  /** A frame is accepted exactly when its last four bytes are the checksum of what precedes them. */
  lemma AcceptedIffTrailerMatches(frame: seq<Byte>)
    requires WellSized(frame)
    ensures var n := |Covered(frame)| - 4;
            ReceiverAccepts(frame) <==> frame[|frame| - 4..] == Le32(Crc(0, Covered(frame)[..n]))
  {
    hide Crc, Le32, OrVariant;
    var s := Covered(frame);
    var n := |s| - 4;
    assert s == s[..n] + s[n..];
    assert s[n..] == frame[|frame| - 4..];
    Residue(0, s[..n], s[n..]);
  }

  /** Continuing the cached header checksum over a payload gives a frame that every receiver accepts. */
  lemma ContinuedFrameAccepted(eth: EthHdr, h: IbHeaders, payload: seq<Byte>)
    ensures ReceiverAccepts(Frame(EthBytes(eth) + IbBytes(h), Crc(0, MaskedImage(h)), payload))
  {
    hide Crc, Le32, OrVariant, IbBytes, EthBytes, MaskedImage;
    var header := EthBytes(eth) + IbBytes(h);
    var f := Frame(header, Crc(0, MaskedImage(h)), payload);
    var trailer := Le32(Crc(Crc(0, MaskedImage(h)), payload));
    assert f[ETH_SIZE..TOTAL_HEADER_SIZE] == IbBytes(h);
    assert f[TOTAL_HEADER_SIZE..] == payload + trailer;
    MaskIsBytewise(h);
    assert Covered(f) == MaskedImage(h) + payload + trailer;
    Chunked(0, MaskedImage(h), payload);
    Residue(0, MaskedImage(h) + payload, trailer);
  }

  lemma CoveredAt(f: seq<Byte>, i: nat)
    requires WellSized(f) && 8 <= i < |Covered(f)|
    ensures Covered(f)[i] == if i < 8 + IB_SIZE then f[i + 6] | VariantBits(i - 8) else f[i + 6]
  {
    hide VariantBits;
    var headers := f[ETH_SIZE..TOTAL_HEADER_SIZE];
    if i < 8 + IB_SIZE {
      assert Covered(f)[i] == OrVariant(headers)[i - 8];
      assert headers[i - 8] == f[i + 6];
    } else {
      assert Covered(f)[i] == f[TOTAL_HEADER_SIZE..][i - 8 - IB_SIZE];
    }
  }

  /** A covered byte depends on one byte of the frame only. */
  lemma CoveredAgree(f: seq<Byte>, g: seq<Byte>, i: nat)
    requires WellSized(f) && |g| == |f| && i < |Covered(f)|
    requires 8 <= i ==> f[i + 6] == g[i + 6]
    ensures Covered(f)[i] == Covered(g)[i]
  {
    hide VariantBits, OrVariant;
    if i < 8 {
      assert Covered(f)[i] == PADDING[i] == Covered(g)[i];
    } else {
      CoveredAt(f, i);
      CoveredAt(g, i);
    }
  }

  /**
   An accepted frame that is changed within four neighbouring bytes is still accepted exactly when the change
   stays within the Ethernet header and the variant bits.
  */
  lemma TamperingDetected(f: seq<Byte>, g: seq<Byte>, k: nat)
    requires WellSized(f) && |g| == |f| && k + 4 <= |f|
    requires forall i :: 0 <= i < |f| && !(k <= i < k + 4) ==> f[i] == g[i]
    requires ReceiverAccepts(f)
    ensures ReceiverAccepts(g) <==> Covered(f) == Covered(g)
  {
    hide Crc, Covered;
    var x, y := Covered(f), Covered(g);
    var k' := if k < 6 then 0 else k - 6;
    forall i | 0 <= i < |x| && !(k' <= i < k' + 4) ensures x[i] == y[i] {
      CoveredAgree(f, g, i);
    }
    if k >= 6 {
      WindowDetects(x, y, k');
    } else {
      SameCovered(f, g);
    }
  }

  lemma SameCovered(f: seq<Byte>, g: seq<Byte>)
    requires WellSized(f) && |g| == |f|
    requires forall i :: 10 <= i < |f| ==> f[i] == g[i]
    ensures Covered(f) == Covered(g)
  {
    hide Covered;
    forall i | 0 <= i < |Covered(f)| ensures Covered(f)[i] == Covered(g)[i] {
      CoveredAgree(f, g, i);
    }
  }

  /** No frame of the sizes a network carries survives two flipped bits among those the check covers. */
  lemma TwoFlippedBitsDetected(f: seq<Byte>, g: seq<Byte>, i: nat, j: nat)
    requires WellSized(f) && |g| == |f| && 8 * |Covered(f)| <= PERIOD
    requires i < j < 8 * |Covered(f)|
    requires forall k :: 0 <= k < 8 * |Covered(f)| ==>
               (Bits(Covered(f))[k] != Bits(Covered(g))[k] <==> k == i || k == j)
    requires ReceiverAccepts(f)
    ensures !ReceiverAccepts(g)
  {
    hide Crc, Covered, Bits;
    CancelIff(0, Covered(f), Covered(g), i, j);
  }
}
