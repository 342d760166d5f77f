/** The constellation mapper: pairs of deinterleaved dibits to the 16 constellation points
    of the trellis code and back. */
module ConstellationMapper {
  import opened CodingBase

  /** The constellation point of the dibit pair (d0, d1). */
  function PointOfDibits(d0: SByte, d1: SByte): (p: Byte)
    requires IsDibit(d0) && IsDibit(d1)
    ensures IsPoint(p)
  {
    if d0 == 1 && d1 == -1 then 0
    else if d0 == -1 && d1 == -1 then 1
    else if d0 == 3 && d1 == -3 then 2
    else if d0 == -3 && d1 == -3 then 3
    else if d0 == -3 && d1 == -1 then 4
    else if d0 == 3 && d1 == -1 then 5
    else if d0 == -1 && d1 == -3 then 6
    else if d0 == 1 && d1 == -3 then 7
    else if d0 == -3 && d1 == 3 then 8
    else if d0 == 3 && d1 == 3 then 9
    else if d0 == -1 && d1 == 1 then 10
    else if d0 == 1 && d1 == 1 then 11
    else if d0 == 1 && d1 == 3 then 12
    else if d0 == -1 && d1 == 3 then 13
    else if d0 == 3 && d1 == 1 then 14
    else 15 // the requires leave only (-3, +1)
  }

  /** The dibit pair sent for constellation point p. */
  function DibitsOfPoint(p: Byte): (pair: (SByte, SByte))
    requires IsPoint(p)
    ensures IsDibit(pair.0) && IsDibit(pair.1)
  {
    match p
    case 0 => (1, -1)
    case 1 => (-1, -1)
    case 2 => (3, -3)
    case 3 => (-3, -3)
    case 4 => (-3, -1)
    case 5 => (3, -1)
    case 6 => (-1, -3)
    case 7 => (1, -3)
    case 8 => (-3, 3)
    case 9 => (3, 3)
    case 10 => (-1, 1)
    case 11 => (1, 1)
    case 12 => (1, 3)
    case 13 => (-1, 3)
    case 14 => (3, 1)
    case 15 => (-3, 1)
  }

  /** The 16 cases cover every pair of levels exactly once: the two tables are inverse
      bijections between the 16 dibit pairs and the points 0..15. */
  lemma PairPointRoundTrip(d0: SByte, d1: SByte)
    requires IsDibit(d0) && IsDibit(d1)
    ensures DibitsOfPoint(PointOfDibits(d0, d1)) == (d0, d1)
  {
  }

  lemma PointPairRoundTrip(p: Byte)
    requires IsPoint(p)
    ensures PointOfDibits(DibitsOfPoint(p).0, DibitsOfPoint(p).1) == p
  {
  }

  /** Point i of the frame is the point of deinterleaved dibits 2i and 2i + 1. */
  function PointsFromDibits(dibits: seq<SByte>): (points: seq<Byte>)
    requires |dibits| == DibitsLength && AllDibits(dibits)
    ensures |points| == PointsLength && AllPoints(points)
  {
    seq(PointsLength, i requires 0 <= i < PointsLength => PointOfDibits(dibits[2 * i], dibits[2 * i + 1]))
  }

  /** Deinterleaved dibits 2i and 2i + 1 are the pair of point i. */
  function DibitsFromPoints(points: seq<Byte>): (dibits: seq<SByte>)
    requires |points| == PointsLength && AllPoints(points)
    ensures |dibits| == DibitsLength && AllDibits(dibits)
  {
    seq(DibitsLength, k requires 0 <= k < DibitsLength =>
      if k % 2 == 0 then DibitsOfPoint(points[k / 2]).0 else DibitsOfPoint(points[k / 2]).1)
  }

  lemma {:induction false} DibitsFromPointsInverts(dibits: seq<SByte>)
    requires |dibits| == DibitsLength && AllDibits(dibits)
    ensures DibitsFromPoints(PointsFromDibits(dibits)) == dibits
  {
    var back := DibitsFromPoints(PointsFromDibits(dibits));
    forall k | 0 <= k < DibitsLength ensures back[k] == dibits[k] {
      var i := k / 2;
      PairPointRoundTrip(dibits[2 * i], dibits[2 * i + 1]);
    }
  }

  lemma {:induction false} PointsFromDibitsInverts(points: seq<Byte>)
    requires |points| == PointsLength && AllPoints(points)
    ensures PointsFromDibits(DibitsFromPoints(points)) == points
  {
    var dibits := DibitsFromPoints(points);
    var back := PointsFromDibits(dibits);
    forall i | 0 <= i < PointsLength ensures back[i] == points[i] {
      assert dibits[2 * i] == DibitsOfPoint(points[i]).0;
      assert dibits[2 * i + 1] == DibitsOfPoint(points[i]).1;
      PointPairRoundTrip(points[i]);
    }
  }

  /** Maps the 98 deinterleaved dibits of a burst to its 49 constellation points. */
  method GetConstellationPoints(dibits: array<SByte>) returns (points: array<Byte>)
    requires dibits.Length == DibitsLength && AllDibits(dibits[..])
    ensures points.Length == PointsLength
    ensures points[..] == PointsFromDibits(dibits[..])
  {
    points := new Byte[PointsLength];
    var i := 0;
    while i < DibitsLength
      invariant 0 <= i <= DibitsLength && i % 2 == 0
      invariant forall k :: 0 <= k < i / 2 ==> points[k] == PointOfDibits(dibits[2 * k], dibits[2 * k + 1])
    {
      assert IsDibit(dibits[..][i]) && IsDibit(dibits[..][i + 1]);
      var d0, d1 := dibits[i], dibits[i + 1];
      if d0 == 1 && d1 == -1 { points[i / 2] := 0; }
      else if d0 == -1 && d1 == -1 { points[i / 2] := 1; }
      else if d0 == 3 && d1 == -3 { points[i / 2] := 2; }
      else if d0 == -3 && d1 == -3 { points[i / 2] := 3; }
      else if d0 == -3 && d1 == -1 { points[i / 2] := 4; }
      else if d0 == 3 && d1 == -1 { points[i / 2] := 5; }
      else if d0 == -1 && d1 == -3 { points[i / 2] := 6; }
      else if d0 == 1 && d1 == -3 { points[i / 2] := 7; }
      else if d0 == -3 && d1 == 3 { points[i / 2] := 8; }
      else if d0 == 3 && d1 == 3 { points[i / 2] := 9; }
      else if d0 == -1 && d1 == 1 { points[i / 2] := 10; }
      else if d0 == 1 && d1 == 1 { points[i / 2] := 11; }
      else if d0 == 1 && d1 == 3 { points[i / 2] := 12; }
      else if d0 == -1 && d1 == 3 { points[i / 2] := 13; }
      else if d0 == 3 && d1 == 1 { points[i / 2] := 14; }
      else if d0 == -3 && d1 == 1 { points[i / 2] := 15; }
      i := i + 2;
    }
  }

  /** Maps the 49 constellation points of a burst to its 98 deinterleaved dibits. */
  method ConstructDeinterleavedDibits(points: array<Byte>) returns (dibits: array<SByte>)
    requires points.Length == PointsLength && AllPoints(points[..])
    ensures dibits.Length == DibitsLength
    ensures dibits[..] == DibitsFromPoints(points[..])
  {
    dibits := new SByte[DibitsLength];
    for i := 0 to PointsLength
      invariant forall k :: 0 <= k < 2 * i ==>
        dibits[k] == if k % 2 == 0 then DibitsOfPoint(points[k / 2]).0 else DibitsOfPoint(points[k / 2]).1
    {
      assert IsPoint(points[..][i]);
      match points[i]
      case 0 => dibits[i * 2] := 1; dibits[i * 2 + 1] := -1;
      case 1 => dibits[i * 2] := -1; dibits[i * 2 + 1] := -1;
      case 2 => dibits[i * 2] := 3; dibits[i * 2 + 1] := -3;
      case 3 => dibits[i * 2] := -3; dibits[i * 2 + 1] := -3;
      case 4 => dibits[i * 2] := -3; dibits[i * 2 + 1] := -1;
      case 5 => dibits[i * 2] := 3; dibits[i * 2 + 1] := -1;
      case 6 => dibits[i * 2] := -1; dibits[i * 2 + 1] := -3;
      case 7 => dibits[i * 2] := 1; dibits[i * 2 + 1] := -3;
      case 8 => dibits[i * 2] := -3; dibits[i * 2 + 1] := 3;
      case 9 => dibits[i * 2] := 3; dibits[i * 2 + 1] := 3;
      case 10 => dibits[i * 2] := -1; dibits[i * 2 + 1] := 1;
      case 11 => dibits[i * 2] := 1; dibits[i * 2 + 1] := 1;
      case 12 => dibits[i * 2] := 1; dibits[i * 2 + 1] := 3;
      case 13 => dibits[i * 2] := -1; dibits[i * 2 + 1] := 3;
      case 14 => dibits[i * 2] := 3; dibits[i * 2 + 1] := 1;
      case 15 => dibits[i * 2] := -3; dibits[i * 2 + 1] := 1;
      case _ =>
    }
  }
}
