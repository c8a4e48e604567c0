/** Byte-order conversion of a fixed-size value's memory image.

    A value of a trivially copyable type `T` is represented by its memory
    image: the `sizeof(T)` bytes it occupies, in the order the platform lays
    them out.  The platform's byte order (`std::endian::native`) is a
    parameter of the operations that depend on it.
 */
module ByteConversion {

  /** One `std::byte`. */
  newtype Byte = b: int | 0 <= b < 0x100

  /** What `std::endian::native` can be, relative to `std::endian::little`
      and `std::endian::big`: equal to `little` only, equal to `big` only,
      equal to both (the platform where every scalar type has size 1, on which
      `little`, `big` and `native` share one value), or equal to neither (a
      mixed-endian platform). */
  datatype Endian = Little | Big | Uniform | Other

  /** `std::endian::native == std::endian::little`. */
  predicate NativeIsLittle(native: Endian)
  {
    native == Little || native == Uniform
  }

  /** `std::endian::native == std::endian::big`. */
  predicate NativeIsBig(native: Endian)
  {
    native == Big || native == Uniform
  }

  // ---------------------------------------------------------------------------
  // Specification functions
  // ---------------------------------------------------------------------------

  /** The bytes of `s` from last to first. */
  function Reversed(s: seq<Byte>): (r: seq<Byte>)
    ensures |r| == |s|
    ensures forall i :: 0 <= i < |s| ==> r[i] == s[|s| - 1 - i]
  {
    if s == [] then [] else Reversed(s[1..]) + [s[0]]
  }

  /** What `little_endian::to_bytes` yields on a platform of byte order `native`. */
  function LittleEndianBytes(native: Endian, image: seq<Byte>): (r: seq<Byte>)
  {
    if NativeIsLittle(native) then image else Reversed(image)
  }

  /** What `big_endian::to_bytes` yields on a platform of byte order `native`. */
  function BigEndianBytes(native: Endian, image: seq<Byte>): (r: seq<Byte>)
  {
    if NativeIsBig(native) then image else Reversed(image)
  }

  /** The unsigned number whose least significant byte comes first in `s`. */
  function LittleValue(s: seq<Byte>): (v: nat)
  {
    if s == [] then 0 else s[0] as nat + 0x100 * LittleValue(s[1..])
  }

  /** The unsigned number whose most significant byte comes first in `s`. */
  function BigValue(s: seq<Byte>): (v: nat)
  {
    if s == [] then 0 else 0x100 * BigValue(s[..|s| - 1]) + s[|s| - 1] as nat
  }

  /** The unsigned number a little- or big-endian platform stores as `image`.
      A mixed-endian platform has no single such reading, and on a platform
      whose scalars are all one byte wide no multi-byte number is stored. */
  function StoredValue(native: Endian, image: seq<Byte>): (v: nat)
    requires native == Little || native == Big
  {
    if native == Little then LittleValue(image) else BigValue(image)
  }

  // ---------------------------------------------------------------------------
  // Operations
  // ---------------------------------------------------------------------------

  /** `_impl::direct`: copies the memory image front to back into a fresh
      buffer of `sizeof(T)` bytes. */
  method Direct(image: seq<Byte>) returns (bytes: array<Byte>)
    ensures fresh(bytes)
    ensures bytes.Length == |image|
    ensures forall i :: 0 <= i < |image| ==> bytes[i] == image[i]
  {
    bytes := new Byte[|image|];
    var i := 0;
    while i < |image|
      invariant 0 <= i <= |image|
      invariant forall k :: 0 <= k < i ==> bytes[k] == image[k]
    {
      bytes[i] := image[i];
      i := i + 1;
    }
  }

  /** `_impl::reverse`: copies the memory image back to front into a fresh
      buffer of `sizeof(T)` bytes, as `std::reverse_copy` does. */
  method Reverse(image: seq<Byte>) returns (bytes: array<Byte>)
    ensures fresh(bytes)
    ensures bytes.Length == |image|
    ensures forall i :: 0 <= i < |image| ==> bytes[i] == image[|image| - 1 - i]
    ensures bytes[..] == Reversed(image)
  {
    var n := |image|;
    bytes := new Byte[n];
    var i := 0;
    while i < n
      invariant 0 <= i <= n
      invariant forall k :: 0 <= k < i ==> bytes[k] == image[n - 1 - k]
    {
      bytes[i] := image[n - 1 - i];
      i := i + 1;
    }
  }

  /** `native::to_bytes`, which is also what the unqualified
      `byte_conversion::to_bytes` names: the memory image itself. */
  method NativeToBytes(image: seq<Byte>) returns (bytes: array<Byte>)
    ensures fresh(bytes)
    ensures bytes[..] == image
  {
    bytes := Direct(image);
  }

  /** `little_endian::to_bytes`: a direct copy when the platform is
      little-endian, a reversed copy otherwise. */
  method LittleEndianToBytes(native: Endian, image: seq<Byte>) returns (bytes: array<Byte>)
    ensures fresh(bytes)
    ensures bytes.Length == |image|
    ensures NativeIsLittle(native) ==> bytes[..] == image
    ensures !NativeIsLittle(native) ==> bytes[..] == Reversed(image)
    ensures bytes[..] == LittleEndianBytes(native, image)
  {
    var direct := NativeIsLittle(native);
    if direct {
      bytes := Direct(image);
    } else {
      bytes := Reverse(image);
    }
  }

  /** `big_endian::to_bytes`: a direct copy when the platform is big-endian,
      a reversed copy otherwise. */
  method BigEndianToBytes(native: Endian, image: seq<Byte>) returns (bytes: array<Byte>)
    ensures fresh(bytes)
    ensures bytes.Length == |image|
    ensures NativeIsBig(native) ==> bytes[..] == image
    ensures !NativeIsBig(native) ==> bytes[..] == Reversed(image)
    ensures bytes[..] == BigEndianBytes(native, image)
  {
    var direct := NativeIsBig(native);
    if direct {
      bytes := Direct(image);
    } else {
      bytes := Reverse(image);
    }
  }

  // ---------------------------------------------------------------------------
  // Properties
  // ---------------------------------------------------------------------------

  /** Reversing twice gives back the memory image. */
  lemma ReversedTwice(s: seq<Byte>)
    ensures Reversed(Reversed(s)) == s
  {
  }

  /** Every ordering yields exactly `sizeof(T)` bytes. */
  lemma LengthPreserved(native: Endian, image: seq<Byte>)
    ensures |LittleEndianBytes(native, image)| == |image|
    ensures |BigEndianBytes(native, image)| == |image|
  {
  }

  /** On a little- or big-endian platform the big-endian bytes are the
      little-endian bytes reversed, and conversely. */
  lemma BigIsReversedLittle(native: Endian, image: seq<Byte>)
    requires native == Little || native == Big
    ensures BigEndianBytes(native, image) == Reversed(LittleEndianBytes(native, image))
    ensures LittleEndianBytes(native, image) == Reversed(BigEndianBytes(native, image))
  {
  }

  /** On a little- or big-endian platform the ordering that matches the
      platform is the native bytes and the other one their reverse. */
  lemma NativeMatchesPlatformOrder(native: Endian, image: seq<Byte>)
    requires native == Little || native == Big
    ensures native == Little ==>
      LittleEndianBytes(native, image) == image &&
      BigEndianBytes(native, image) == Reversed(image)
    ensures native == Big ==>
      BigEndianBytes(native, image) == image &&
      LittleEndianBytes(native, image) == Reversed(image)
  {
  }

  /** When the memory image is not its own reverse, exactly one of the
      explicit orderings equals the native bytes. */
  lemma ExactlyOneIsNative(native: Endian, image: seq<Byte>)
    requires native == Little || native == Big
    requires Reversed(image) != image
    ensures (LittleEndianBytes(native, image) == image) !=
            (BigEndianBytes(native, image) == image)
  {
  }

  /** When the memory image is its own reverse (every one-byte type, for
      instance), both explicit orderings equal the native bytes on every
      platform: "exactly one" does not hold for such values. */
  lemma PalindromeMatchesBoth(native: Endian, image: seq<Byte>)
    requires Reversed(image) == image
    ensures LittleEndianBytes(native, image) == image
    ensures BigEndianBytes(native, image) == image
  {
  }

  /** A one-byte value is a palindrome, so both orderings give its native byte. */
  lemma OneByteMatchesBoth(native: Endian, b: Byte)
    ensures LittleEndianBytes(native, [b]) == [b]
    ensures BigEndianBytes(native, [b]) == [b]
  {
  }

  /** Both comparisons succeed exactly on the platform whose scalars are all
      one byte wide; everywhere else at most one does. */
  lemma BothTestsOnlyWhenUniform(native: Endian)
    ensures NativeIsLittle(native) && NativeIsBig(native) <==> native == Uniform
    ensures !NativeIsLittle(native) && !NativeIsBig(native) <==> native == Other
  {
  }

  /** When every scalar type has size 1 both comparisons succeed, so both
      orderings take the direct copy, equal to the memory image and to each
      other. */
  lemma UniformOrderCopiesBoth(image: seq<Byte>)
    ensures LittleEndianBytes(Uniform, image) == image
    ensures BigEndianBytes(Uniform, image) == image
  {
  }

  /** On a mixed-endian platform neither comparison succeeds, so both
      orderings take the reversed copy and agree with each other. */
  lemma OtherOrderReversesBoth(image: seq<Byte>)
    ensures LittleEndianBytes(Other, image) == Reversed(image)
    ensures BigEndianBytes(Other, image) == Reversed(image)
    ensures LittleEndianBytes(Other, image) == BigEndianBytes(Other, image)
  {
  }

  /** Reading the reversed bytes most significant first gives the same number
      as reading the original bytes least significant first. */
  lemma {:induction false} BigValueOfReversed(s: seq<Byte>)
    ensures BigValue(Reversed(s)) == LittleValue(s)
  {
    if s != [] {
      var t := Reversed(s);
      assert t == Reversed(s[1..]) + [s[0]];
      assert t[..|t| - 1] == Reversed(s[1..]);
      BigValueOfReversed(s[1..]);
    }
  }

  /** Reading the reversed bytes least significant first gives the same number
      as reading the original bytes most significant first. */
  lemma LittleValueOfReversed(s: seq<Byte>)
    ensures LittleValue(Reversed(s)) == BigValue(s)
  {
    BigValueOfReversed(Reversed(s));
    ReversedTwice(s);
  }

  /** `little_endian::to_bytes` is byte-order correct: on a little- or
      big-endian platform its output, read least significant byte first, is
      the number the platform stores. */
  lemma LittleEndianIsCorrect(native: Endian, image: seq<Byte>)
    requires native == Little || native == Big
    ensures LittleValue(LittleEndianBytes(native, image)) == StoredValue(native, image)
  {
    if native == Big {
      LittleValueOfReversed(image);
    }
  }

  /** `big_endian::to_bytes` is byte-order correct: on a little- or big-endian
      platform its output, read most significant byte first, is the number the
      platform stores. */
  lemma BigEndianIsCorrect(native: Endian, image: seq<Byte>)
    requires native == Little || native == Big
    ensures BigValue(BigEndianBytes(native, image)) == StoredValue(native, image)
  {
    if native == Little {
      BigValueOfReversed(image);
    }
  }
}
