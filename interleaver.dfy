/** The dibit interleaver: a fixed permutation of the 98 dibits of a burst. */
module Interleaver {
  import opened CodingBase
  import opened TrellisTables

  /** The deinterleaved frame: received dibit i lands at position InterleaveMatrix[i]. */
  function Deinterleaved(dibits: seq<SByte>): (r: seq<SByte>)
    requires |dibits| == DibitsLength
    ensures |r| == DibitsLength
  {
    seq(DibitsLength, k requires 0 <= k < DibitsLength => dibits[InterleavePosition(k)])
  }

  /** Received dibit i lands at position InterleaveMatrix[i] of the deinterleaved frame. */
  lemma DeinterleavedPlacesDibits(dibits: seq<SByte>, i: nat)
    requires |dibits| == DibitsLength && i < DibitsLength
    ensures 0 <= InterleaveMatrix[i] < DibitsLength
    ensures Deinterleaved(dibits)[InterleaveMatrix[i]] == dibits[i]
  {
    PositionOfIndex(i);
  }

  /** The interleaved frame: dibit i is taken from position InterleaveMatrix[i]. */
  function Interleaved(dibits: seq<SByte>): (r: seq<SByte>)
    requires |dibits| == DibitsLength
    ensures |r| == DibitsLength
  {
    InterleaveMatrixInRange();
    seq(DibitsLength, i requires 0 <= i < DibitsLength => dibits[InterleaveMatrix[i]])
  }

  lemma InterleaveAfterDeinterleave(dibits: seq<SByte>)
    requires |dibits| == DibitsLength
    ensures Interleaved(Deinterleaved(dibits)) == dibits
  {
    InterleaveMatrixInRange();
    InterleaveMatrixInverse();
  }

  lemma DeinterleaveAfterInterleave(dibits: seq<SByte>)
    requires |dibits| == DibitsLength
    ensures Deinterleaved(Interleaved(dibits)) == dibits
  {
    InterleaveMatrixInRange();
    InterleaveMatrixInverse();
  }

  /** Both directions only move dibits, so they keep the frame's dibits valid levels. */
  lemma InterleavingKeepsLevels(dibits: seq<SByte>)
    requires |dibits| == DibitsLength && AllDibits(dibits)
    ensures AllDibits(Deinterleaved(dibits)) && AllDibits(Interleaved(dibits))
  {
    InterleaveMatrixInRange();
    InterleaveMatrixInverse();
  }

  /** Scatters the received dibits to their deinterleaved positions. */
  method DeinterleaveDibits(dibits: array<SByte>) returns (deinterleaved: array<SByte>)
    requires dibits.Length == DibitsLength
    ensures deinterleaved.Length == DibitsLength
    ensures deinterleaved[..] == Deinterleaved(dibits[..])
  {
    InterleaveMatrixInRange();
    InterleaveMatrixInverse();
    deinterleaved := new SByte[DibitsLength];
    for i := 0 to DibitsLength
      invariant forall j :: 0 <= j < i ==> deinterleaved[InterleaveMatrix[j]] == dibits[j]
    {
      forall j | 0 <= j < i
        ensures InterleaveMatrix[j] != InterleaveMatrix[i]
      {
        assert InterleavePosition(InterleaveMatrix[j]) != InterleavePosition(InterleaveMatrix[i]);
      }
      deinterleaved[InterleaveMatrix[i]] := dibits[i];
    }
    forall k | 0 <= k < DibitsLength
      ensures deinterleaved[k] == dibits[InterleavePosition(k)]
    {
      assert InterleaveMatrix[InterleavePosition(k)] == k;
    }
  }

  /** Gathers the deinterleaved dibits back into transmission order. */
  method InterleaveDibits(dibits: array<SByte>) returns (interleaved: array<SByte>)
    requires dibits.Length == DibitsLength
    ensures interleaved.Length == DibitsLength
    ensures interleaved[..] == Interleaved(dibits[..])
  {
    InterleaveMatrixInRange();
    interleaved := new SByte[DibitsLength];
    for i := 0 to DibitsLength
      invariant forall j :: 0 <= j < i ==> interleaved[j] == dibits[InterleaveMatrix[j]]
    {
      interleaved[i] := dibits[InterleaveMatrix[i]];
    }
  }
}
