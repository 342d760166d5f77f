/** The 4FSK symbol mapper: pairs of info bits to signed dibit amplitude levels and back. */
module SymbolMapper {
  import opened CodingBase

  /** The 4FSK level of the bit pair (b0, b1): the first bit is the sign (1 is negative),
      the second selects the outer level 3 over the inner level 1. */
  function DibitOfBits(b0: Byte, b1: Byte): (d: SByte)
    requires IsBit(b0) && IsBit(b1)
    ensures IsDibit(d)
    ensures d < 0 <==> b0 == 1
    ensures (d == 3 || d == -3) <==> b1 == 1
  {
    if b0 == 0 && b1 == 1 then 3
    else if b0 == 0 && b1 == 0 then 1
    else if b0 == 1 && b1 == 0 then -1
    else -3
  }

  /** The bit pair carried by a dibit level. */
  function BitsOfDibit(d: SByte): (bits: (Byte, Byte))
    requires IsDibit(d)
    ensures IsBit(bits.0) && IsBit(bits.1)
    ensures bits.0 == 1 <==> d < 0
    ensures bits.1 == 1 <==> (d == 3 || d == -3)
  {
    if d == 3 then (0, 1)
    else if d == 1 then (0, 0)
    else if d == -1 then (1, 0)
    else (1, 1)
  }

  /** Dibit i of the frame is the level of info bits 2i and 2i + 1. */
  function DibitsFromBits(bits: seq<Byte>): (dibits: seq<SByte>)
    requires |bits| == InfoBitsLength && AllBits(bits)
    ensures |dibits| == DibitsLength && AllDibits(dibits)
  {
    seq(DibitsLength, i requires 0 <= i < DibitsLength => DibitOfBits(bits[2 * i], bits[2 * i + 1]))
  }

  /** Info bits 2i and 2i + 1 are the bit pair of dibit i. */
  function BitsFromDibits(dibits: seq<SByte>): (bits: seq<Byte>)
    requires |dibits| == DibitsLength && AllDibits(dibits)
    ensures |bits| == InfoBitsLength && AllBits(bits)
  {
    seq(InfoBitsLength, k requires 0 <= k < InfoBitsLength =>
      if k % 2 == 0 then BitsOfDibit(dibits[k / 2]).0 else BitsOfDibit(dibits[k / 2]).1)
  }

  /** The level map is a bijection between the four bit pairs and the four levels. */
  lemma BitPairLevelRoundTrip(b0: Byte, b1: Byte)
    requires IsBit(b0) && IsBit(b1)
    ensures BitsOfDibit(DibitOfBits(b0, b1)) == (b0, b1)
  {
  }

  lemma LevelBitPairRoundTrip(d: SByte)
    requires IsDibit(d)
    ensures DibitOfBits(BitsOfDibit(d).0, BitsOfDibit(d).1) == d
  {
  }

  lemma {:induction false} BitsFromDibitsInverts(bits: seq<Byte>)
    requires |bits| == InfoBitsLength && AllBits(bits)
    ensures BitsFromDibits(DibitsFromBits(bits)) == bits
  {
    var back := BitsFromDibits(DibitsFromBits(bits));
    forall k | 0 <= k < InfoBitsLength ensures back[k] == bits[k] {
      var i := k / 2;
      BitPairLevelRoundTrip(bits[2 * i], bits[2 * i + 1]);
    }
  }

  lemma {:induction false} DibitsFromBitsInverts(dibits: seq<SByte>)
    requires |dibits| == DibitsLength && AllDibits(dibits)
    ensures DibitsFromBits(BitsFromDibits(dibits)) == dibits
  {
    var bits := BitsFromDibits(dibits);
    var back := DibitsFromBits(bits);
    forall i | 0 <= i < DibitsLength ensures back[i] == dibits[i] {
      assert bits[2 * i] == BitsOfDibit(dibits[i]).0;
      assert bits[2 * i + 1] == BitsOfDibit(dibits[i]).1;
      LevelBitPairRoundTrip(dibits[i]);
    }
  }

  /** Maps the 196 info bits of a burst to its 98 dibits, two bits per symbol. */
  method ExtractDibits(infoBits: array<Byte>) returns (dibits: array<SByte>)
    requires infoBits.Length == InfoBitsLength && AllBits(infoBits[..])
    ensures dibits.Length == DibitsLength
    ensures dibits[..] == DibitsFromBits(infoBits[..])
  {
    dibits := new SByte[DibitsLength];
    var i := 0;
    while i < InfoBitsLength
      invariant 0 <= i <= InfoBitsLength && i % 2 == 0
      invariant forall k :: 0 <= k < i / 2 ==>
        dibits[k] == DibitOfBits(infoBits[2 * k], infoBits[2 * k + 1])
    {
      assert IsBit(infoBits[..][i]) && IsBit(infoBits[..][i + 1]);
      if infoBits[i] == 0 && infoBits[i + 1] == 1 {
        dibits[i / 2] := 3;
      } else if infoBits[i] == 0 && infoBits[i + 1] == 0 {
        dibits[i / 2] := 1;
      } else if infoBits[i] == 1 && infoBits[i + 1] == 0 {
        dibits[i / 2] := -1;
      } else if infoBits[i] == 1 && infoBits[i + 1] == 1 {
        dibits[i / 2] := -3;
      }
      i := i + 2;
    }
  }

  /** Maps the 98 dibits of a burst back to its 196 info bits. */
  method ConstructPayloadInfoBits(dibits: array<SByte>) returns (infoBits: array<Byte>)
    requires dibits.Length == DibitsLength && AllDibits(dibits[..])
    ensures infoBits.Length == InfoBitsLength
    ensures infoBits[..] == BitsFromDibits(dibits[..])
  {
    infoBits := new Byte[InfoBitsLength];
    var i := 0;
    while i < DibitsLength
      invariant 0 <= i <= DibitsLength
      invariant forall k :: 0 <= k < 2 * i ==>
        infoBits[k] == if k % 2 == 0 then BitsOfDibit(dibits[k / 2]).0 else BitsOfDibit(dibits[k / 2]).1
    {
      assert IsDibit(dibits[..][i]);
      if dibits[i] == 3 {
        infoBits[i * 2] := 0; infoBits[i * 2 + 1] := 1;
      } else if dibits[i] == 1 {
        infoBits[i * 2] := 0; infoBits[i * 2 + 1] := 0;
      } else if dibits[i] == -1 {
        infoBits[i * 2] := 1; infoBits[i * 2 + 1] := 0;
      } else if dibits[i] == -3 {
        infoBits[i * 2] := 1; infoBits[i * 2 + 1] := 1;
      }
      i := i + 1;
    }
  }
}
