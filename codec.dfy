/** The whole trellis chain for one burst: 196 info bits to 144 binary payload bits and back. */
module TrellisCodec {
  import opened CodingBase
  import opened SymbolMapper
  import opened Interleaver
  import opened ConstellationMapper
  import opened TrellisStateMachine
  import opened BitPacker

  /** Decode direction: dibits, deinterleave, constellation points, trellis decode, and the
      bits of the 48 payload tribits; None when the trellis decode fails. */
  function DecodeBurst(infoBits: seq<Byte>): (r: Option<seq<Byte>>)
    requires |infoBits| == InfoBitsLength && AllBits(infoBits)
    ensures r.Some? ==> |r.value| == BinaryLength && AllBits(r.value)
  {
    var dibits := DibitsFromBits(infoBits);
    InterleavingKeepsLevels(dibits);
    match Decode(PointsFromDibits(Deinterleaved(dibits)))
    case None => None
    case Some(tribits) => Some(BinaryFromTribits(tribits))
  }

  /** Encode direction: tribits, trellis encode with terminator, dibit pairs, interleave, and
      the info bits of the dibits. */
  function EncodeBurst(binary: seq<Byte>): (infoBits: seq<Byte>)
    requires |binary| == BinaryLength
    ensures |infoBits| == InfoBitsLength && AllBits(infoBits)
  {
    var dibits := DibitsFromPoints(Encode(TribitsFromBinary(binary)));
    InterleavingKeepsLevels(dibits);
    BitsFromDibits(Interleaved(dibits))
  }

  /** The bits of a tribit frame depend only on its 48 payload tribits. */
  lemma BinaryIgnoresTerminator(tribits: seq<Byte>, last: Byte)
    requires |tribits| == PayloadTribits
    ensures BinaryFromTribits(tribits + [last]) == BinaryFromTribits(tribits)
  {
    var a, b := BinaryFromTribits(tribits + [last]), BinaryFromTribits(tribits);
    forall k | 0 <= k < BinaryLength ensures a[k] == b[k] {
      assert (tribits + [last])[k / 3] == tribits[k / 3];
    }
  }

  /** Every payload survives the whole chain: decoding the burst it encodes to gives it back. */
  lemma BurstRoundTrip(binary: seq<Byte>)
    requires |binary| == BinaryLength && AllBits(binary)
    ensures DecodeBurst(EncodeBurst(binary)) == Some(binary)
  {
    var tribits := TribitsFromBinary(binary);
    var points := Encode(tribits);
    var dibits := DibitsFromPoints(points);
    InterleavingKeepsLevels(dibits);
    var sent := Interleaved(dibits);
    DibitsFromBitsInverts(sent);
    DeinterleaveAfterInterleave(dibits);
    PointsFromDibitsInverts(points);
    DecodeAfterEncode(tribits);
    BinaryIgnoresTerminator(tribits, 0);
    BinaryFromTribitsInverts(binary);
  }
}
