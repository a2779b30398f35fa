/**
 * The firmware image as a byte sequence, and the Python byte-string
 * operations the decoder applies to it: slicing and `bytes.hex().upper()`.
 */
module Bytes {
  import opened Wrappers
  import opened Text

  /** One byte of the image. */
  type Byte = b: int | 0 <= b < 256

  /** The sequence read back to front (the byte order of a little-endian field). */
  function Reverse<T>(s: seq<T>): (r: seq<T>)
    ensures |r| == |s|
    ensures forall i :: 0 <= i < |s| ==> r[i] == s[|s| - 1 - i]
  {
    if s == [] then [] else Reverse(s[1..]) + [s[0]]
  }

  /** Reversing twice gives the original sequence back. */
  lemma ReverseReverse<T>(s: seq<T>)
    ensures Reverse(Reverse(s)) == s
  {
  }

  /** Where Python places a slice bound `i` of a sequence of length `len`. */
  function SliceBound(i: int, len: nat): (r: nat)
    ensures r <= len
    ensures 0 <= i <= len ==> r == i
  {
    if i < 0 then (if len + i < 0 then 0 else len + i)
    else if i > len then len
    else i
  }

  /**
   * Python's `s[start:end]`: negative bounds count from the end, bounds past
   * the end are clamped, and an empty range gives an empty slice.
   */
  function PySlice<T>(s: seq<T>, start: int, end: int): (r: seq<T>)
    ensures 0 <= start <= end <= |s| ==> r == s[start..end]
    ensures |r| <= |s|
  {
    var a := SliceBound(start, |s|);
    var b := SliceBound(end, |s|);
    if a < b then s[a..b] else []
  }

  /** Character `i` of the text: the high digit of byte `i / 2` at even `i`, its low digit at odd `i`. */
  function HexDigitAt(bs: seq<Byte>, i: int): char
    requires 0 <= i < 2 * |bs|
  {
    var b := bs[i / 2];
    if i % 2 == 0 then DigitChar(b / 16) else DigitChar(b % 16)
  }

  /** `bytes.hex().upper()`: two upper-case digits per byte, in order. */
  function HexUpper(bs: seq<Byte>): (r: string)
    ensures |r| == 2 * |bs|
  {
    seq(2 * |bs|, i requires 0 <= i < 2 * |bs| => HexDigitAt(bs, i))
  }

  /** Byte `k` is written at positions `2k` (high digit) and `2k + 1` (low digit). */
  lemma HexUpperAt(bs: seq<Byte>, k: int)
    requires 0 <= k < |bs|
    ensures HexUpper(bs)[2 * k] == DigitChar(bs[k] / 16)
    ensures HexUpper(bs)[2 * k + 1] == DigitChar(bs[k] % 16)
  {
    assert (2 * k) / 2 == k && (2 * k) % 2 == 0;
    assert (2 * k + 1) / 2 == k && (2 * k + 1) % 2 == 1;
  }

  /** Every character of the text is a hexadecimal digit, and none is a lower-case letter. */
  lemma HexUpperDigits(bs: seq<Byte>)
    ensures forall i :: 0 <= i < |HexUpper(bs)| ==> DigitOf(HexUpper(bs)[i], 16).Some?
    ensures forall i :: 0 <= i < |HexUpper(bs)| ==> !('a' <= HexUpper(bs)[i] <= 'z')
  {
    forall i | 0 <= i < |HexUpper(bs)|
      ensures DigitOf(HexUpper(bs)[i], 16).Some? && !('a' <= HexUpper(bs)[i] <= 'z')
    {
      var b := bs[i / 2];
      DigitCharValue(b / 16);
      DigitCharValue(b % 16);
    }
  }

  /** Different byte strings never have the same hexadecimal text. */
  lemma HexUpperInjective(a: seq<Byte>, b: seq<Byte>)
    requires HexUpper(a) == HexUpper(b)
    ensures a == b
  {
    assert |a| == |b|;
    forall k | 0 <= k < |a|
      ensures a[k] == b[k]
    {
      HexUpperAt(a, k);
      HexUpperAt(b, k);
      DigitCharValue(a[k] / 16);
      DigitCharValue(a[k] % 16);
      DigitCharValue(b[k] / 16);
      DigitCharValue(b[k] % 16);
      assert a[k] / 16 == b[k] / 16 && a[k] % 16 == b[k] % 16;
    }
  }

  /** The hexadecimal text is already upper case. */
  lemma HexUpperIsUpper(bs: seq<Byte>)
    ensures ToUpper(HexUpper(bs)) == HexUpper(bs)
  {
    HexUpperDigits(bs);
  }
}
