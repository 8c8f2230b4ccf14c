/** `BitVector` of LockstepBase/DataStructures.cs: 64 flags in one `UInt64`.
    C# masks the count of a shift on a 64-bit value to its low six bits, so
    every shift below is by an amount taken modulo 64. */
module BitVectors {
  import opened Wrappers

  /** The thrown `IndexOutOfRangeException`. */
  datatype BitError = IndexOutOfRange(idx: int)

  /** A `byte` of the arrays the constructor reads and `Serialize` returns. */
  type Byte = bv8

  /** The shift count C# uses for `1UL << idx`: the low six bits of `idx`. */
  function ShiftOf(idx: int): bv6 {
    (idx % 64) as bv6
  }

  function Mask(s: bv6): bv64 {
    1 << s
  }

  /** `Data` after `SetBit` for an index the guard lets through. */
  function WithBit(x: bv64, s: bv6, on: bool): bv64 {
    if on then x | Mask(s) else x & !Mask(s)
  }

  /** `GetBit` for an index the guard lets through: 1 when the bit is set. */
  function BitOf(x: bv64, s: bv6): (r: int)
    ensures r == 0 || r == 1
  {
    if x & Mask(s) != 0 then 1 else 0
  }

  /** Writing a bit and reading it back gives what was written. */
  lemma SetThenGet(x: bv64, s: bv6, on: bool)
    ensures BitOf(WithBit(x, s, on), s) == if on then 1 else 0
  {
  }

  /** Writing a bit leaves every other bit as it was. */
  lemma SetLeavesOthers(x: bv64, a: bv6, b: bv6, on: bool)
    requires a != b
    ensures BitOf(WithBit(x, a, on), b) == BitOf(x, b)
  {
    var m, n := Mask(a), Mask(b);
    assert m & n == 0;
    assert (x | m) & n == x & n;
    assert (x & !m) & n == x & n;
  }

  /** Indices 0 to 63 name distinct bits; the guard only refuses indices
      above 63, and a negative index wraps around, so -1 names bit 63. */
  lemma ShiftOfIndex(idx: int)
    ensures 0 <= idx < 64 ==> ShiftOf(idx) as int == idx
    ensures ShiftOf(idx - 64) == ShiftOf(idx)
    ensures ShiftOf(-1) == 63
  {
    assert (idx - 64) % 64 == idx % 64;
  }

  /** The eight byte lanes of a `UInt64`; the shift count `i * 8` is taken
      modulo 64, so byte `i` of the input lands in lane `i % 8`. */
  function Lane(i: int): bv3 {
    (i % 8) as bv3
  }

  function Place(b: Byte, k: bv3): bv64 {
    (b as bv64) << ((k as bv6) * 8)
  }

  /** Lane `k` of the little-endian layout `BitConverter.GetBytes` produces. */
  function ByteAt(x: bv64, k: bv3): Byte {
    ((x >> ((k as bv6) * 8)) & 0xFF) as bv8
  }

  /** The value the `BitVector(byte[])` constructor accumulates. */
  function Pack(data: seq<Byte>): bv64 {
    if data == [] then 0
    else
      var n := |data| - 1;
      Pack(data[..n]) | Place(data[n], Lane(n))
  }

  /** `BitConverter.GetBytes(Data).Take(length)`: a negative length takes
      nothing, a length past eight takes all eight bytes. */
  function Serialized(x: bv64, length: int): (r: seq<Byte>)
    ensures |r| == if length < 0 then 0 else if length > 8 then 8 else length
    ensures forall i :: 0 <= i < |r| ==> r[i] == ByteAt(x, Lane(i))
  {
    var n := if length < 0 then 0 else if length > 8 then 8 else length;
    seq(n, i requires 0 <= i < n => ByteAt(x, Lane(i)))
  }

  lemma PlaceAt(b: Byte, k: bv3, j: bv3)
    ensures ByteAt(Place(b, k), j) == if j == k then b else 0
  {
  }

  lemma ByteOfOr(x: bv64, y: bv64, j: bv3)
    ensures ByteAt(x | y, j) == ByteAt(x, j) | ByteAt(y, j)
  {
  }

  lemma LaneInjective(i: int, n: int)
    requires 0 <= i < 8 && 0 <= n < 8 && i != n
    ensures Lane(i) != Lane(n)
  {
  }

  lemma PackPrefix(bytes: seq<Byte>, i: nat)
    requires i < |bytes|
    ensures Pack(bytes[..i + 1]) == Pack(bytes[..i]) | Place(bytes[i], Lane(i))
  {
    assert bytes[..i + 1][..i] == bytes[..i];
  }

  /** Up to eight bytes land in distinct lanes, with zeros above them. */
  lemma {:induction false} PackBytes(data: seq<Byte>)
    requires |data| <= 8
    ensures forall i :: 0 <= i < |data| ==> ByteAt(Pack(data), Lane(i)) == data[i]
    ensures forall i :: |data| <= i < 8 ==> ByteAt(Pack(data), Lane(i)) == 0
  {
    if data != [] {
      var n := |data| - 1;
      var p := data[..n];
      PackBytes(p);
      forall i | 0 <= i < 8
        ensures ByteAt(Pack(data), Lane(i)) == if i < n then p[i] else if i == n then data[n] else 0
      {
        ByteOfOr(Pack(p), Place(data[n], Lane(n)), Lane(i));
        PlaceAt(data[n], Lane(n), Lane(i));
        if i != n {
          LaneInjective(i, n);
        }
      }
    }
  }

  /** Serializing as many bytes as were given restores them. */
  lemma PackRoundTrip(data: seq<Byte>)
    requires |data| <= 8
    ensures Serialized(Pack(data), |data|) == data
  {
    PackBytes(data);
  }

  /** A ninth byte is or-ed into the first lane. */
  lemma NinthByteWraps(data: seq<Byte>)
    requires |data| == 9
    ensures Serialized(Pack(data), 1) == [data[0] | data[8]]
  {
    var p := data[..8];
    PackBytes(p);
    ByteOfOr(Pack(p), Place(data[8], Lane(8)), 0);
    PlaceAt(data[8], Lane(8), 0);
  }

  class BitVector {
    var data: bv64

    /** `BitVector(byte[] data)`. */
    constructor FromBytes(bytes: seq<Byte>)
      ensures data == Pack(bytes)
    {
      var acc: bv64 := 0;
      var i := 0;
      while i < |bytes|
        invariant 0 <= i <= |bytes|
        invariant acc == Pack(bytes[..i])
      {
        PackPrefix(bytes, i);
        acc := acc | Place(bytes[i], Lane(i));
        i := i + 1;
      }
      assert bytes[..i] == bytes;
      data := acc;
    }

    /** `BitVector(BitVector other)`. */
    constructor Copy(other: BitVector)
      ensures data == other.data
    {
      data := other.data;
    }

    /** `SetBit`: an index above 63 is refused and nothing changes. */
    method SetBit(idx: int, val: int) returns (r: Result<(), BitError>)
      modifies this
      ensures idx > 63 ==> r == Failure(IndexOutOfRange(idx)) && data == old(data)
      ensures idx <= 63 ==> r.Success? && data == WithBit(old(data), ShiftOf(idx), val == 1)
    {
      if idx > 63 {
        return Failure(IndexOutOfRange(idx));
      }
      data := WithBit(data, ShiftOf(idx), val == 1);
      return Success(());
    }

    function GetBit(idx: int): (r: Result<int, BitError>)
      reads this
      ensures idx > 63 <==> r.Failure?
      ensures r.Success? ==> r.value == BitOf(data, ShiftOf(idx))
    {
      if idx > 63 then Failure(IndexOutOfRange(idx)) else Success(BitOf(data, ShiftOf(idx)))
    }

    /** `Serialize(length)`: the member form of `Serialized` on this
        vector's data; what it promises is stated by `Serialized` and
        `PackRoundTrip`. */
    function Serialize(length: int): (r: seq<Byte>)
      reads this
      ensures r == Serialized(data, length)
    {
      Serialized(data, length)
    }

    /** `ToEnumerable`: the 64 flags, lowest bit first. */
    method ToEnumerable() returns (bits: seq<bool>)
      ensures |bits| == 64
      ensures forall i :: 0 <= i < 64 ==> bits[i] == (BitOf(data, ShiftOf(i)) == 1)
    {
      bits := [];
      var i := 0;
      while i < 64
        invariant 0 <= i <= 64 && |bits| == i
        invariant forall k :: 0 <= k < i ==> bits[k] == (BitOf(data, ShiftOf(k)) == 1)
      {
        bits := bits + [BitOf(data, ShiftOf(i)) == 1];
        i := i + 1;
      }
    }
  }
}
