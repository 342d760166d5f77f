/** Element types, frame lengths and the Option wrapper shared by the trellis codec. */
module CodingBase {

  /** An unsigned 8-bit cell: info bits, constellation points and tribits are stored in these. */
  type Byte = b: int | 0 <= b < 256

  /** A signed 8-bit cell: dibits (4FSK amplitude levels) are stored in these. */
  type SByte = b: int | -128 <= b < 128

  /** Frame lengths of the rate 3/4 trellis code. */
  const InfoBitsLength: nat := 196
  const DibitsLength: nat := 98
  const PointsLength: nat := 49
  const TribitsLength: nat := 49
  const PayloadTribits: nat := 48
  const BinaryLength: nat := 144

  datatype Option<T> = None | Some(value: T)

  predicate IsBit(b: int) { b == 0 || b == 1 }

  predicate AllBits(s: seq<Byte>) { forall k :: 0 <= k < |s| ==> IsBit(s[k]) }

  /** The four 4FSK amplitude levels a dibit may take. */
  predicate IsDibit(d: int) { d == 3 || d == 1 || d == -1 || d == -3 }

  predicate AllDibits(s: seq<SByte>) { forall k :: 0 <= k < |s| ==> IsDibit(s[k]) }

  predicate IsPoint(p: int) { 0 <= p < 16 }

  predicate AllPoints(s: seq<Byte>) { forall k :: 0 <= k < |s| ==> IsPoint(s[k]) }

  predicate IsTribit(t: int) { 0 <= t < 8 }

  predicate AllTribits(s: seq<Byte>) { forall k :: 0 <= k < |s| ==> IsTribit(s[k]) }
}
