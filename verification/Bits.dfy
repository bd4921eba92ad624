// The bit cursor of the DEFLATE reader and what each of its reads returns.

module BitReader {
  import opened Basics
  import opened BitStrings

  /** Everything that stops the image reader, from the bit level up to the PNG container. */
  datatype PngError =
    | Truncated
    | CodeLengthOver15
    | SymbolTooLarge
    | IncompleteCode
    | CodeTooLong
    | ReservedBlockType
    | StoredLengthMismatch
    | RepeatWithoutPrevious
    | CodeLengthSymbolOutOfRange
    | CodeLengthsOverrun
    | LengthSymbolOutOfRange
    | DistanceSymbolOutOfRange
    | BackReferenceBeforeStart
    | NotDeflate
    | ZlibHeaderCheck
    | PresetDictionary
    | ChecksumMismatch
    | NotAPng
    | ShortHeader
    | UnsupportedImage
    | NoHeader
    | NoImageData
    | SizeOverflow
    | WrongImageSize
    | UnknownFilter

  type Read<+T> = Reading<T, PngError>

  function TakeBits(s: seq<bit>, p: nat, count: nat): (r: Read<nat>)
    ensures r.Got? <==> p + count <= |s|
    ensures r.Got? ==> r.end == p + count && r.value < Pow2(count)
  {
    if p + count <= |s| then
      BitsOfLsb(s[p..p + count]);
      Got(Lsb(s[p..p + count]), p + count)
    else Fail(Truncated)
  }

  /** The first byte boundary at or after bit `p`. */
  function AlignUp(p: nat): (q: nat)
    ensures q % 8 == 0 && p <= q < p + 8
  {
    (p + 7) / 8 * 8
  }

  /** Reading a field back where it was packed gives the field. */
  lemma TakeInverts(s: seq<bit>, p: nat, value: nat, count: nat)
    requires value < Pow2(count)
    requires At(s, p, LsbBits(value, count))
    ensures TakeBits(s, p, count) == Got(value, p + count)
  {
    LsbOfBits(value, count);
  }

  /** And only there: what a read returns is what stands packed at its position. */
  lemma TakeSound(s: seq<bit>, p: nat, count: nat)
    requires TakeBits(s, p, count).Got?
    ensures At(s, p, LsbBits(TakeBits(s, p, count).value, count))
  {
    BitsOfLsb(s[p..p + count]);
  }

  /** Eight bits at a byte boundary are that byte. */
  lemma ByteOfBits(data: seq<byte>, k: nat)
    requires k < |data|
    ensures LsbBits(data[k], 8) == Unpack(data)[8 * k..8 * k + 8]
    ensures TakeBits(Unpack(data), 8 * k, 8) == Got(data[k], 8 * k + 8)
  {
    var s, v := Unpack(data), data[k];
    LsbBitsPointwise(v, 8);
    forall i | 0 <= i < 8 ensures s[8 * k + i] == LsbBits(v, 8)[i] {
      UnpackedBit(data, k, i);
    }
    assert s[8 * k..8 * k + 8] == LsbBits(v, 8);
    ByteFits(v);
    LsbOfBits(v, 8);
  }

  /** A cursor at a multiple of eight bits is at the start of a byte. */
  lemma AlignedCursor(index: nat, bit: nat, boundary: nat)
    requires bit < 8 && 8 * index + bit == 8 * boundary
    ensures bit == 0 && index == boundary
  {
  }

  lemma ByteFits(b: byte)
    ensures b < Pow2(8)
  {
    assert Pow2(8) == 256 by {
      Pow2Adds(4, 4);
      assert Pow2(4) == 16;
    }
  }

  lemma BitPlace(k: nat, i: nat)
    requires i < 8
    ensures (8 * k + i) / 8 == k && (8 * k + i) % 8 == i
  {
  }

  lemma UnpackedBit(data: seq<byte>, k: nat, i: nat)
    requires k < |data| && i < 8
    ensures Unpack(data)[8 * k + i] == (data[k] / Pow2(i)) % 2
  {
    hide Pow2;
    BitPlace(k, i);
  }

  lemma {:induction false} LsbBitsPointwise(value: nat, count: nat)
    ensures forall i :: 0 <= i < count ==> LsbBits(value, count)[i] == (value / Pow2(i)) % 2
  {
    if count == 0 {
    } else {
      LsbBitsPointwise(value / 2, count - 1);
      forall i | 0 <= i < count ensures LsbBits(value, count)[i] == (value / Pow2(i)) % 2 {
        if i > 0 {
          assert LsbBits(value, count)[i] == LsbBits(value / 2, count - 1)[i - 1];
          HalvingDivides(value, Pow2(i - 1));
        }
      }
    }
  }

  lemma NoBits(s: seq<bit>, p: nat)
    requires p <= |s|
    ensures Lsb(s[p..p + 0]) == 0
  {
  }

  class Bits {
    const data: seq<byte>
    var index: nat
    var bit: nat

    ghost predicate Valid()
      reads this
    {
      bit < 8 && 8 * index + bit <= 8 * |data|
    }

    ghost function Pos(): (p: nat)
      reads this
    {
      8 * index + bit
    }

    ghost function Stream(): (s: seq<bit>)
    {
      Unpack(data)
    }

    constructor (data: seq<byte>)
      ensures Valid() && Pos() == 0 && this.data == data
    {
      this.data := data;
      index, bit := 0, 0;
    }

    method Bit() returns (r: Result<nat, PngError>)
      requires Valid()
      modifies this
      ensures Valid() && Pos() >= old(Pos())
      ensures Agrees(r, Pos(), if old(Pos()) < |Stream()| then Got(Stream()[old(Pos())], old(Pos()) + 1)
                               else Fail(Truncated))
    {
      if index >= |data| {
        return Err(Truncated);
      }
      var value := (data[index] / Pow2(bit)) % 2;
      assert Pos() / 8 == index && Pos() % 8 == bit;
      bit := bit + 1;
      if bit == 8 {
        bit := 0;
        index := index + 1;
      }
      r := Ok(value);
    }

    method Take(count: nat) returns (r: Result<nat, PngError>)
      requires Valid()
      modifies this
      ensures Valid() && Pos() >= old(Pos())
      ensures Agrees(r, Pos(), TakeBits(Stream(), old(Pos()), count))
    {
      hide Lsb, Unpack, Pow2;
      var value := 0;
      ghost var s, p := Stream(), Pos();
      NoBits(s, p);
      for i := 0 to count
        invariant Valid() && Pos() == p + i
        invariant value == Lsb(s[p..p + i])
      {
        var b := Bit();
        if b.Err? {
          return Err(Truncated);
        }
        LsbAppends(s[p..p + i], s[p + i]);
        assert s[p..p + i] + [s[p + i]] == s[p..p + (i + 1)];
        value := value + b.value * Pow2(i);
      }
      r := Ok(value);
    }

    method Align()
      requires Valid()
      modifies this
      ensures Valid() && bit == 0 && Pos() == AlignUp(old(Pos()))
    {
      if bit != 0 {
        bit := 0;
        index := index + 1;
      }
    }
  }
}
