/** The bit packer: the 48 payload tribits of a burst to 144 binary bits and back. */
module BitPacker {
  import opened CodingBase

  /** The three bits of a tribit cell, most significant first: bit k of the result is set
      exactly when bit 2 - k of the cell is (the cell is tested against 0b100, 0b010, 0b001). */
  function TribitBits(t: Byte): (bits: seq<Byte>)
    ensures |bits| == 3 && AllBits(bits)
    ensures IsTribit(t) ==> 4 * bits[0] + 2 * bits[1] + bits[2] == t
  {
    [(t / 4) % 2, (t / 2) % 2, t % 2]
  }

  /** The tribit of three binary cells, most significant first; a cell counts as a set bit
      only when it holds exactly 1. */
  function TribitOfBits(b0: Byte, b1: Byte, b2: Byte): (t: Byte)
    ensures IsTribit(t)
    ensures TribitBits(t) == [if b0 == 1 then 1 else 0, if b1 == 1 then 1 else 0, if b2 == 1 then 1 else 0]
  {
    (if b0 == 1 then 4 else 0) + (if b1 == 1 then 2 else 0) + (if b2 == 1 then 1 else 0)
  }

  /** Binary bits 3k, 3k + 1 and 3k + 2 are the bits of tribit k, most significant first. */
  function BinaryFromTribits(tribits: seq<Byte>): (bits: seq<Byte>)
    requires |tribits| >= PayloadTribits
    ensures |bits| == BinaryLength && AllBits(bits)
  {
    seq(BinaryLength, k requires 0 <= k < BinaryLength => TribitBits(tribits[k / 3])[k % 3])
  }

  /** Tribit k is assembled from binary bits 3k, 3k + 1 and 3k + 2. */
  function TribitsFromBinary(bits: seq<Byte>): (tribits: seq<Byte>)
    requires |bits| == BinaryLength
    ensures |tribits| == PayloadTribits && AllTribits(tribits)
  {
    seq(PayloadTribits, k requires 0 <= k < PayloadTribits =>
      TribitOfBits(bits[3 * k], bits[3 * k + 1], bits[3 * k + 2]))
  }

  lemma DivModThree(k: nat, r: nat)
    requires r < 3
    ensures (3 * k + r) / 3 == k && (3 * k + r) % 3 == r
  {
  }

  lemma TribitBitsRoundTrip(t: Byte)
    requires IsTribit(t)
    ensures TribitOfBits(TribitBits(t)[0], TribitBits(t)[1], TribitBits(t)[2]) == t
  {
  }

  /** Unpacking then packing gives back the payload tribits (the terminator, if present, is
      dropped). */
  lemma {:induction false} TribitsFromBinaryInverts(tribits: seq<Byte>)
    requires |tribits| >= PayloadTribits && AllTribits(tribits[..PayloadTribits])
    ensures TribitsFromBinary(BinaryFromTribits(tribits)) == tribits[..PayloadTribits]
  {
    var bits := BinaryFromTribits(tribits);
    var back := TribitsFromBinary(bits);
    forall k | 0 <= k < PayloadTribits ensures back[k] == tribits[k] {
      assert tribits[..PayloadTribits][k] == tribits[k];
      var b := TribitBits(tribits[k]);
      DivModThree(k, 0);
      DivModThree(k, 1);
      DivModThree(k, 2);
      assert bits[3 * k] == b[0] && bits[3 * k + 1] == b[1] && bits[3 * k + 2] == b[2];
      TribitBitsRoundTrip(tribits[k]);
    }
  }

  lemma {:induction false} BinaryFromTribitsInverts(bits: seq<Byte>)
    requires |bits| == BinaryLength && AllBits(bits)
    ensures BinaryFromTribits(TribitsFromBinary(bits)) == bits
  {
    var tribits := TribitsFromBinary(bits);
    var back := BinaryFromTribits(tribits);
    forall k | 0 <= k < BinaryLength ensures back[k] == bits[k] {
      var i := k / 3;
      assert tribits[i] == TribitOfBits(bits[3 * i], bits[3 * i + 1], bits[3 * i + 2]);
      assert IsBit(bits[3 * i]) && IsBit(bits[3 * i + 1]) && IsBit(bits[3 * i + 2]);
    }
  }

  /** Expands the first 48 tribits of a burst into 144 bits. */
  method ExtractBinary(tribits: array<Byte>) returns (binary: array<Byte>)
    requires tribits.Length >= PayloadTribits
    ensures binary.Length == BinaryLength
    ensures binary[..] == BinaryFromTribits(tribits[..])
  {
    binary := new Byte[BinaryLength];
    var i := 0;
    while i < BinaryLength
      invariant 0 <= i <= BinaryLength && i % 3 == 0
      invariant forall k :: 0 <= k < i ==> binary[k] == TribitBits(tribits[k / 3])[k % 3]
    {
      binary[i] := if (tribits[i / 3] / 4) % 2 > 0 then 1 else 0;
      binary[i + 1] := if (tribits[i / 3] / 2) % 2 > 0 then 1 else 0;
      binary[i + 2] := if tribits[i / 3] % 2 > 0 then 1 else 0;
      i := i + 3;
    }
  }

  /** Packs 144 bits into 48 tribits. */
  method ConstructTribits(binary: array<Byte>) returns (tribits: array<Byte>)
    requires binary.Length == BinaryLength
    ensures tribits.Length == PayloadTribits
    ensures tribits[..] == TribitsFromBinary(binary[..])
  {
    tribits := new Byte[PayloadTribits];
    var i := 0;
    while i < BinaryLength
      invariant 0 <= i <= BinaryLength && i % 3 == 0
      invariant forall k :: 0 <= k < i / 3 ==>
        tribits[k] == TribitOfBits(binary[3 * k], binary[3 * k + 1], binary[3 * k + 2])
    {
      tribits[i / 3] := (if binary[i] == 1 then 4 else 0)
                      + (if binary[i + 1] == 1 then 2 else 0)
                      + (if binary[i + 2] == 1 then 1 else 0);
      i := i + 3;
    }
  }
}
