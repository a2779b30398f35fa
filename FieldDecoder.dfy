/**
 * The field decoder of `read_value_from_bin`: bounds checks against the
 * image, then `struct.unpack` of an 8-, 16- or 32-bit two's-complement
 * integer in either byte order; plus Python's integer bit tests, used for
 * the type-flag bits and for the flag "Set" test.
 */
module FieldDecoder {
  import opened Wrappers
  import opened Bytes
  import opened AddressSpace

  function Pow2(k: nat): (r: nat)
    ensures r >= 1
  {
    if k == 0 then 1 else 2 * Pow2(k - 1)
  }

  lemma Pow2Plus8(k: nat)
    ensures Pow2(k + 8) == 256 * Pow2(k)
  {
    assert Pow2(k + 8) == 2 * Pow2(k + 7);
    assert Pow2(k + 7) == 2 * Pow2(k + 6);
    assert Pow2(k + 6) == 2 * Pow2(k + 5);
    assert Pow2(k + 5) == 2 * Pow2(k + 4);
    assert Pow2(k + 4) == 2 * Pow2(k + 3);
    assert Pow2(k + 3) == 2 * Pow2(k + 2);
  }

  /** The number of distinct values of an `n`-byte field. */
  function Modulus(n: nat): (m: nat)
    ensures m == Pow2(8 * n)
    ensures m >= 1
  {
    Pow2(8 * n)
  }

  lemma ModulusSizes()
    ensures Modulus(1) == 0x100 && Modulus(2) == 0x1_0000 && Modulus(4) == 0x1_0000_0000
  {
    Pow2Plus8(0);
    Pow2Plus8(8);
    Pow2Plus8(16);
    Pow2Plus8(24);
  }

  /** The unsigned value of bytes taken most significant first. */
  function BigEndian(bs: seq<Byte>): (v: nat)
    ensures v < Modulus(|bs|)
  {
    if bs == [] then 0
    else
      Pow2Plus8(8 * (|bs| - 1));
      BigEndian(bs[..|bs| - 1]) * 256 + bs[|bs| - 1]
  }

  /** The `n` bytes, most significant first, of an unsigned value below `Modulus(n)`. */
  function BigEndianBytes(v: nat, n: nat): (bs: seq<Byte>)
    requires v < Modulus(n)
    ensures |bs| == n
  {
    if n == 0 then []
    else
      Pow2Plus8(8 * (n - 1));
      BigEndianBytes(v / 256, n - 1) + [v % 256]
  }

  lemma {:induction false} BigEndianOfBytes(v: nat, n: nat)
    requires v < Modulus(n)
    ensures BigEndian(BigEndianBytes(v, n)) == v
  {
    if n > 0 {
      Pow2Plus8(8 * (n - 1));
      var bs := BigEndianBytes(v, n);
      assert bs[..n - 1] == BigEndianBytes(v / 256, n - 1);
      BigEndianOfBytes(v / 256, n - 1);
    }
  }

  lemma {:induction false} BytesOfBigEndian(bs: seq<Byte>)
    ensures BigEndianBytes(BigEndian(bs), |bs|) == bs
  {
    if bs != [] {
      var init := bs[..|bs| - 1];
      Pow2Plus8(8 * |init|);
      BytesOfBigEndian(init);
      var v := BigEndian(bs);
      assert v / 256 == BigEndian(init) && v % 256 == bs[|bs| - 1];
      assert bs == init + [bs[|bs| - 1]];
    }
  }

  /** The values a field of `n` bytes can hold, with or without a sign. */
  predicate InRange(v: int, n: nat, signed: bool)
    requires n > 0
  {
    if signed then -(Modulus(n) / 2) <= v < Modulus(n) / 2 else 0 <= v < Modulus(n)
  }

  /** The unsigned reading of the bytes in the given order. */
  function Unsigned(bs: seq<Byte>, lsbFirst: bool): (u: nat)
    ensures u < Modulus(|bs|)
  {
    if lsbFirst then BigEndian(Reverse(bs)) else BigEndian(bs)
  }

  /**
   * `struct.unpack` of `bs` with `'<'` (least significant byte first) or
   * `'>'`, and the lower-case (signed, two's complement) or upper-case
   * (unsigned) format letter.
   */
  function Decode(bs: seq<Byte>, signed: bool, lsbFirst: bool): (v: int)
    requires |bs| > 0
    ensures InRange(v, |bs|, signed)
  {
    var u := Unsigned(bs, lsbFirst);
    if signed && u >= Modulus(|bs|) / 2 then u - Modulus(|bs|) else u
  }

  /** `struct.pack` with the same format: the bytes of an in-range value. */
  function Encode(v: int, n: nat, signed: bool, lsbFirst: bool): (bs: seq<Byte>)
    requires n > 0 && InRange(v, n, signed)
    ensures |bs| == n
  {
    var u := if v < 0 then v + Modulus(n) else v;
    var be := BigEndianBytes(u, n);
    if lsbFirst then Reverse(be) else be
  }

  lemma HalfModulus(n: nat)
    requires n > 0
    ensures Modulus(n) == 2 * (Modulus(n) / 2)
  {
    var k: nat := 8 * n - 1;
    var half := Pow2(k);
    assert Pow2(k + 1) == 2 * half;
    assert Modulus(n) == 2 * half;
  }

  /** Decoding gives an in-range value, and encoding it gives the same bytes back. */
  lemma DecodeEncode(bs: seq<Byte>, signed: bool, lsbFirst: bool)
    requires |bs| > 0
    ensures InRange(Decode(bs, signed, lsbFirst), |bs|, signed)
    ensures Encode(Decode(bs, signed, lsbFirst), |bs|, signed, lsbFirst) == bs
  {
    var n, u := |bs|, Unsigned(bs, lsbFirst);
    var v := Decode(bs, signed, lsbFirst);
    HalfModulus(n);
    assert (if v < 0 then v + Modulus(n) else v) == u;
    var be := BigEndianBytes(u, n);
    assert Encode(v, n, signed, lsbFirst) == if lsbFirst then Reverse(be) else be;
    if lsbFirst {
      BytesOfBigEndian(Reverse(bs));
      ReverseReverse(bs);
    } else {
      BytesOfBigEndian(bs);
    }
  }

  /** Encoding an in-range value and decoding it gives the value back. */
  lemma EncodeDecode(v: int, n: nat, signed: bool, lsbFirst: bool)
    requires n > 0 && InRange(v, n, signed)
    ensures Decode(Encode(v, n, signed, lsbFirst), signed, lsbFirst) == v
  {
    HalfModulus(n);
    var u := if v < 0 then v + Modulus(n) else v;
    BigEndianOfBytes(u, n);
    if lsbFirst {
      ReverseReverse(BigEndianBytes(u, n));
    }
  }

  /** The signed reading agrees with the unsigned one modulo the field's range. */
  lemma TwosComplement(bs: seq<Byte>, lsbFirst: bool)
    requires |bs| > 0
    ensures Decode(bs, true, lsbFirst) % Modulus(|bs|) == Decode(bs, false, lsbFirst)
    ensures Decode(bs, true, lsbFirst) < 0 <==> Decode(bs, false, lsbFirst) >= Modulus(|bs|) / 2
  {
    var u: int, m: int := Unsigned(bs, lsbFirst), Modulus(|bs|);
    assert Decode(bs, false, lsbFirst) == u;
    if u >= m / 2 {
      assert Decode(bs, true, lsbFirst) == u - m;
      WrapBelow(u, m);
    } else {
      assert Decode(bs, true, lsbFirst) == u;
      Residue(u, m);
    }
  }

  lemma Residue(a: int, m: int)
    requires 0 <= a < m
    ensures a % m == a
  {
  }

  /** Euclidean remainder of a value one modulus below its residue. */
  lemma WrapBelow(a: int, m: int)
    requires 0 <= a < m
    ensures (a - m) % m == a
  {
  }

  /** Little-endian decoding is big-endian decoding of the reversed bytes. */
  lemma ByteOrder(bs: seq<Byte>, signed: bool)
    requires |bs| > 0
    ensures Decode(bs, signed, true) == Decode(Reverse(bs), signed, false)
  {
    UnsignedLittle(bs);
    DecodeCongruent(bs, Reverse(bs), signed, true, false);
  }

  /** The unsigned little-endian value is the big-endian value of the reversed bytes. */
  lemma UnsignedLittle(bs: seq<Byte>)
    ensures |Reverse(bs)| == |bs|
    ensures Unsigned(bs, true) == Unsigned(Reverse(bs), false)
  {
  }

  /** Decoding depends only on the length and the unsigned value. */
  lemma DecodeCongruent(a: seq<Byte>, b: seq<Byte>, signed: bool, la: bool, lb: bool)
    requires |a| > 0 && |a| == |b| && Unsigned(a, la) == Unsigned(b, lb)
    ensures Decode(a, signed, la) == Decode(b, signed, lb)
  {
  }

  /** Two bytes `12 34` read as `0x1234` in big-endian order and `0x3412` in little-endian order. */
  lemma ByteOrderExample()
    ensures Decode([0x12, 0x34], false, false) == 0x1234
    ensures Decode([0x12, 0x34], false, true) == 0x3412
    ensures Decode([0xFF, 0xFE], true, false) == -2
  {
    ModulusSizes();
    BigEndianPair(0x12, 0x34);
    BigEndianPair(0x34, 0x12);
    BigEndianPair(0xFF, 0xFE);
    var be: seq<Byte> := [0x12, 0x34];
    assert Reverse(be) == [0x34, 0x12];
  }

  /** The big-endian value of two bytes. */
  lemma BigEndianPair(hi: Byte, lo: Byte)
    ensures BigEndian([hi, lo]) == hi as int * 256 + lo as int
  {
    var bs: seq<Byte> := [hi, lo];
    assert bs[..1] == [hi] && bs[..1][..0] == [];
  }

  predicate SupportedWidth(sizeBits: int) {
    sizeBits == 8 || sizeBits == 16 || sizeBits == 32
  }

  /**
   * `read_value_from_bin`: resolve the address, refuse an offset outside
   * `[0, bin_size)` or a span `offset + size_bits // 8` past the end of the
   * image, refuse any width but 8, 16 and 32, and otherwise decode the span.
   * (Python's `//` by 8 is floor division, which Dafny's `/` by a positive
   * divisor is too.)
   */
  function ReadValue(sp: Space, image: seq<Byte>, address: int, sizeBits: int, signed: bool, lsbFirst: bool): (r: Option<int>)
    ensures r.Some? <==>
      SupportedWidth(sizeBits) && 0 <= Resolve(sp, address) && Resolve(sp, address) + sizeBits / 8 <= |image|
    ensures r.Some? ==>
      var off, n := Resolve(sp, address), sizeBits / 8;
      && InRange(r.value, n, signed)
      && Encode(r.value, n, signed, lsbFirst) == image[off..off + n]
  {
    var off := Resolve(sp, address);
    if !(0 <= off < |image|) then None
    else
      var n := sizeBits / 8;
      if off + n > |image| then None
      else if !SupportedWidth(sizeBits) then None
      else
        DecodeEncode(image[off..off + n], signed, lsbFirst);
        Some(Decode(image[off..off + n], signed, lsbFirst))
  }

  /** The value ranges of the three widths, in numbers. */
  lemma ReadValueRanges(sp: Space, image: seq<Byte>, address: int, sizeBits: int, signed: bool, lsbFirst: bool)
    requires ReadValue(sp, image, address, sizeBits, signed, lsbFirst).Some?
    ensures var v := ReadValue(sp, image, address, sizeBits, signed, lsbFirst).value;
      && (sizeBits == 8 && signed ==> -0x80 <= v < 0x80)
      && (sizeBits == 8 && !signed ==> 0 <= v < 0x100)
      && (sizeBits == 16 && signed ==> -0x8000 <= v < 0x8000)
      && (sizeBits == 16 && !signed ==> 0 <= v < 0x1_0000)
      && (sizeBits == 32 && signed ==> -0x8000_0000 <= v < 0x8000_0000)
      && (sizeBits == 32 && !signed ==> 0 <= v < 0x1_0000_0000)
  {
    ModulusSizes();
  }

  /** Bit `k` of `x` in Python's two's-complement view of integers: `(x >> k) & 1`. */
  function Bit(x: int, k: nat): bool
    decreases k
  {
    if k == 0 then x % 2 == 1 else Bit(x / 2, k - 1)
  }

  /** The low `n` bits of Python's `x & y` (Dafny's `/` and `%` by 2 floor, as `>>` does). */
  function AndBits(x: int, y: int, n: nat): nat
    decreases n
  {
    if n == 0 then 0
    else 2 * AndBits(x / 2, y / 2, n - 1) + (if x % 2 == 1 && y % 2 == 1 then 1 else 0)
  }

  lemma BitZero(x: int)
    ensures Bit(x, 0) == (x % 2 == 1)
  {
  }

  lemma BitSucc(x: int, k: nat)
    ensures Bit(x, k + 1) == Bit(x / 2, k)
  {
  }

  /** The conjunction is non-zero exactly when some bit position is set in both operands. */
  lemma {:induction false} AndBitsNonZero(x: int, y: int, n: nat)
    ensures AndBits(x, y, n) != 0 <==> exists k :: 0 <= k < n && Bit(x, k) && Bit(y, k)
    decreases n
  {
    if n > 0 {
      AndBitsNonZero(x / 2, y / 2, n - 1);
      var low := x % 2 == 1 && y % 2 == 1;
      var rest := AndBits(x / 2, y / 2, n - 1);
      assert AndBits(x, y, n) == 2 * rest + (if low then 1 else 0);
      BitZero(x);
      BitZero(y);
      if low {
        assert Bit(x, 0) && Bit(y, 0);
      } else if rest != 0 {
        var k :| 0 <= k < n - 1 && Bit(x / 2, k) && Bit(y / 2, k);
        BitSucc(x, k);
        BitSucc(y, k);
        assert Bit(x, k + 1) && Bit(y, k + 1);
      } else {
        forall k | 0 <= k < n
          ensures !(Bit(x, k) && Bit(y, k))
        {
          if k > 0 {
            BitSucc(x, k - 1);
            BitSucc(y, k - 1);
          }
        }
      }
    }
  }

  /** The default flag mask `0x01`. */
  const DefaultMask := 0x01

  /** The flag "Set" test: `(byte_value & mask) != 0` for one unsigned byte. */
  function IsSet(b: Byte, mask: int): bool {
    AndBits(b, mask, 8) != 0
  }

  /** A flag is set exactly when the byte and the mask share a set bit. */
  lemma IsSetIff(b: Byte, mask: int)
    ensures IsSet(b, mask) <==> exists k :: 0 <= k < 8 && Bit(b, k) && Bit(mask, k)
  {
    AndBitsNonZero(b, mask, 8);
  }

  lemma {:induction false} BitOfSmall(x: int, k: nat)
    requires 0 <= x < 2 && k > 0
    ensures !Bit(x, k)
    decreases k
  {
    if k > 1 {
      BitOfSmall(x / 2, k - 1);
    }
  }

  /** With the default mask, a flag is set exactly when bit 0 of its byte is. */
  lemma DefaultMaskIsBitZero(b: Byte)
    ensures IsSet(b, DefaultMask) <==> b % 2 == 1
  {
    IsSetIff(b, DefaultMask);
    forall k | 0 < k < 8
      ensures !Bit(DefaultMask, k)
    {
      BitOfSmall(DefaultMask, k);
    }
    assert Bit(DefaultMask, 0);
  }

  /**
   * A flag's state as the exporter reports it: one unsigned byte read at the
   * flag's address, `None` when that read fails, otherwise the "Set" test.
   */
  function FlagState(sp: Space, image: seq<Byte>, address: int, mask: int): (r: Option<bool>)
    ensures r.Some? <==> 0 <= Resolve(sp, address) < |image|
    ensures r.Some? ==> r.value == IsSet(image[Resolve(sp, address)], mask)
  {
    match ReadValue(sp, image, address, 8, false, false)
    case None => None
    case Some(v) =>
      var off := Resolve(sp, address);
      var single := image[off..off + 1];
      ModulusSizes();
      DecodeEncode(single, false, false);
      assert single[..0] == [];
      assert Decode(single, false, false) == image[off];
      Some(IsSet(image[off], mask))
  }
}
