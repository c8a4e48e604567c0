# cpp-byte-conversion in Dafny

This is a model of the two small components in `src/main.cpp`, with proofs about each:

- **Byte conversion** (`byte_conversion`). This turns a trivially copyable value into the `sizeof(T)` bytes it occupies. There are three orderings:
  - `native::to_bytes` returns the bytes as they lie in memory.
  - `little_endian::to_bytes` returns them least significant byte first on a little- or big-endian platform.
  - `big_endian::to_bytes` returns them most significant byte first on a little- or big-endian platform.

  On a mixed-endian platform both explicit orderings return the reversed image, which is neither order. On a platform where every scalar type has size 1, `std::endian::little`, `big` and `native` all have one value, so both explicit orderings return the image unchanged.

  Each ordering is a choice between two copy primitives. `_impl::direct` copies the memory image front to back into a fresh `std::array`. `_impl::reverse` copies it back to front with `std::reverse_copy`. The unqualified `byte_conversion::to_bytes` is `native::to_bytes`, pulled in by `using namespace native` (src/main.cpp:66). It is therefore modelled by `NativeToBytes`.
- **Sequence joining** (`struct join`). This function object holds a separator. Its call operator renders the elements of a range to a string stream and writes the separator strictly between consecutive elements.

Module `ByteConversion` (byte_conversion.dfy) covers the first component:
- A value's memory image is a `seq<Byte>`.
- `std::endian::native` is a parameter of type `Endian = Little | Big | Uniform | Other`.
  - `Uniform` is the platform where `native` equals both `little` and `big`.
  - `Other` is a mixed-endian platform, where it equals neither.
  - The predicates `NativeIsLittle` and `NativeIsBig` are the source's two comparisons.
- `Direct` and `Reverse` allocate a new array and fill it in a loop.
- The three `to_bytes` methods choose between them just as the source does.
- `NativeToBytes` is proved to return the memory image itself. The two explicit orderings are each tied to a pure function, `LittleEndianBytes` or `BigEndianBytes`. The lemmas relate these functions to the image and to each other.
- `LittleValue`, `BigValue` and `StoredValue` interpret a byte sequence as an unsigned number. They state what "byte-order correct" means: on a little- or big-endian platform, reading the output in the requested order gives the number the platform stores.

Module `SequenceJoin` (sequence_join.dfy) covers the second component:
- `join` is the datatype `Joiner(sep)`, because its separator is set once and never changed.
- `Joiner.Apply` is the call operator: a loop over the range that holds back the previous element.
- `ss << x` is modelled by a rendering function `text`.
- `Apply` is proved equal to `Join`, the recursive intercalation of the rendered elements.

One general claim about this program does not hold. "For every value, exactly one of the little- and big-endian outputs equals the native output" fails when the memory image is its own reverse. A one-byte type is an example: both outputs then equal the native bytes. The code itself behaves as designed. `ExactlyOneIsNative` states the claim with the condition it needs, and `PalindromeMatchesBoth` and `OneByteMatchesBoth` show the case where both outputs agree.

## Model

| member | source | states |
|---|---|---|
| ByteConversion.Reversed | src/main.cpp:32 | the reversed copy has the image's length, and byte `i` is byte `n-1-i` of the image |
| ByteConversion.Direct | src/main.cpp:19-25 | returns a fresh buffer of `sizeof(T)` bytes whose byte `i` is byte `i` of the memory image |
| ByteConversion.Reverse | src/main.cpp:28-34 | returns a fresh buffer of `sizeof(T)` bytes whose byte `i` is byte `n-1-i` of the memory image |
| ByteConversion.NativeToBytes | src/main.cpp:40-43 | the native ordering is a direct copy: the buffer equals the memory image byte for byte |
| ByteConversion.LittleEndianToBytes | src/main.cpp:49-53 | the buffer has `sizeof(T)` bytes; it is the image when `native == little` holds (a little-endian platform, or one whose scalars are all one byte) and the reversed image otherwise |
| ByteConversion.BigEndianToBytes | src/main.cpp:59-63 | the buffer has `sizeof(T)` bytes; it is the image when `native == big` holds (a big-endian platform, or one whose scalars are all one byte) and the reversed image otherwise |
| ByteConversion.ReversedTwice | src/main.cpp:28-34 | applying the reversal twice gives back the memory image |
| ByteConversion.LengthPreserved | src/main.cpp:21 | all three orderings yield exactly `sizeof(T)` bytes on every platform |
| ByteConversion.BigIsReversedLittle | src/main.cpp:49-63 | on a little- or big-endian platform, the big-endian bytes are the reverse of the little-endian bytes, and the other way round |
| ByteConversion.NativeMatchesPlatformOrder | src/main.cpp:40-63 | on a little-endian platform the little-endian bytes are the native bytes and the big-endian bytes their reverse; on a big-endian platform it is the other way round |
| ByteConversion.ExactlyOneIsNative | src/main.cpp:49-63 | on a little- or big-endian platform, when the image is not its own reverse, exactly one explicit ordering equals the native bytes |
| ByteConversion.PalindromeMatchesBoth | src/main.cpp:49-63 | when the image is its own reverse, both explicit orderings equal the native bytes on every platform |
| ByteConversion.OneByteMatchesBoth | src/main.cpp:49-63 | for a one-byte value, both explicit orderings return that byte on every platform |
| ByteConversion.BothTestsOnlyWhenUniform | src/main.cpp:51-61 | both comparisons with `native` hold exactly on the platform whose scalars are all one byte, and neither holds exactly on a mixed-endian platform |
| ByteConversion.UniformOrderCopiesBoth | src/main.cpp:51-62 | when every scalar type has size 1, both orderings take the direct copy and equal the memory image |
| ByteConversion.OtherOrderReversesBoth | src/main.cpp:51-62 | on a mixed-endian platform both comparisons fail, so both orderings return the reversed image and are equal |
| ByteConversion.BigValueOfReversed | src/main.cpp:32 | reading the reversed bytes most significant first gives the number the original bytes give when read least significant first |
| ByteConversion.LittleValueOfReversed | src/main.cpp:32 | reading the reversed bytes least significant first gives the number the original bytes give when read most significant first |
| ByteConversion.LittleEndianIsCorrect | src/main.cpp:49-53 | on a little- or big-endian platform, the little-endian output read least significant byte first is the number the platform stores |
| ByteConversion.BigEndianIsCorrect | src/main.cpp:59-63 | on a little- or big-endian platform, the big-endian output read most significant byte first is the number the platform stores |
| SequenceJoin.Joiner.Apply | src/main.cpp:80-99 | the one-pass loop returns the rendered elements with the separator between each two consecutive ones; an empty range gives `""` and a single element gives its text |
| SequenceJoin.JoinEmpty | src/main.cpp:85-98 | joining an empty range yields the empty string |
| SequenceJoin.JoinSingleton | src/main.cpp:88-96 | joining one element yields that element with no separator |
| SequenceJoin.JoinSnoc | src/main.cpp:90-95 | each further element adds one separator and then the element to the text so far |
| SequenceJoin.JoinAppend | src/main.cpp:88-96 | joining two non-empty sequences one after the other is joining each and putting one separator between the results |
| SequenceJoin.JoinBoundaries | src/main.cpp:88-96 | the result starts with the first element and ends with the last: no leading or trailing separator |
| SequenceJoin.JoinLength | src/main.cpp:88-96 | the result's length is the total length of the elements plus one separator per pair of neighbours |
| SequenceJoin.JoinWithoutSeparator | src/main.cpp:71-73 | with the default-constructed empty separator, the elements are simply concatenated |
| SequenceJoin.JoinThree | src/main.cpp:88-96 | joining `[a, b, c]` gives `a + sep + b + sep + c` |
| SequenceJoin.JoinOfWords | src/main.cpp:107-110 | `["hello","world","this is","PrettyCool"]` joined with `".."` is `"hello..world..this is..PrettyCool"` |
| SequenceJoin.JoinOfNumbers | src/main.cpp:112-113 | the decimal forms of `[10,20,30]` joined with `".."` give `"10..20..30"` |

## Left out

- `main` and everything it prints (src/main.cpp:102-131): standard output and the `std::bitset<8>` rendering are I/O.
- The `float` and `double` values `1.0 / 3.0`: floating point is not modelled. The byte-order results hold for every memory image, so they are stated for arbitrary byte sequences.
- `reinterpret_cast` over the value's storage: pointer aliasing is not modelled. The memory image is a given byte sequence.
- The `TriviallyCopyable` concept (src/main.cpp:12) is a compile-time check. As written, it only checks that the expression is well-formed, so it restricts no type. It is therefore not a precondition.
- `std::endian::native` is a compile-time platform constant. Here it is the parameter `native`.
- `StoredValue` has no meaning on a mixed-endian platform, nor on a platform whose scalars are all one byte. The two correctness lemmas therefore require a little- or big-endian platform.
- Byte: fixed at 8 bits (`CHAR_BIT == 8`). Platforms with wider bytes are not modelled. The copy and ordering results do not depend on the byte's width; only the numeric readings `LittleValue` and `BigValue` use base 256.
- `ss << x` for arbitrary element types, `std::to_string` and `std::views::transform` are library formatting. Rendering is the parameter `text`, and the numbers example joins their decimal strings.
- The `std::ranges::range_adaptor_closure` base and the `|` pipe syntax (src/main.cpp:69) are calling syntax only. The range adaptor is applied by calling `Joiner.Apply` directly.
