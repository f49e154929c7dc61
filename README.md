# Binary helpers of the streaming library's common module

The RTMP and SRT clients of this live-streaming library build their wire
headers with a few small helpers in `common/src/main/java/com/pedro/common/Extensions.kt`:
- fixed-width big-endian integer encoders and decoders (16, 24 and 32 bits);
- a little-endian 32-bit pair built by byte reversal;
- lowercase hex rendering of a byte array, and the MD5-hex string built on it;
- a finder for the positions of a character in a string;
- a three-way `Long` comparison.

This project models those helpers in Dafny and proves what they promise.

Two modules:

- `JvmInt` (`jvm_int.dfy`) holds the JVM's primitive integers as Kotlin uses them.
  `Int8`, `Int32` and `Int64` are Kotlin's `Byte`, `Int` and `Long`, as bounded integers.
  `ToByte` and `ByteToInt` are the narrowing `toByte()` and the widening `Byte.toInt()`.
  `And`, `Or`, `Shl` and `Ushr` are Kotlin's infix operators. They work on the
  two's-complement bit pattern (`Unsigned`) and narrow the result back to 32 bits (`Wrap`).
  `and` and `or` are defined one binary digit at a time. Lemmas proved by induction
  show that masking with `0xff` keeps the low byte, and that an `or` of
  non-overlapping bit ranges adds them. Shift counts use only their low 5 bits, as on the JVM.
- `Extensions` (`extensions.dfy`) holds the helpers themselves. Each one is written
  with the same operators, in the same order, as the Kotlin source. Kotlin's infix
  `and`, `shl` and `or` share one precedence level and group to the left, and the
  model follows that grouping.

A Kotlin `ByteArray` is a `seq<Int8>` here. A Kotlin `String` is a sequence of UTF-16
code units, so `getIndexes` works on a `seq<Char16>`, where `Char16` is Kotlin's `Char` with
lone surrogates included. The hex renderings are plain `string`s: every character they hold
is ASCII, where a code unit and a character coincide. `getIndexes` builds its result in a loop
with a mutable list, so it is a method with a `for` loop and loop invariants. Every
other helper is an expression and is modelled as a function.

The hex vector is the one the repository's `AuthUtilTest` checks on its sibling
`AuthUtil.bytesToHex` (`rtmp/src/test/java/com/pedro/rtmp/utils/AuthUtilTest.kt:30-35`).
The Ints 255, 128, 8, 1, 0, -255 and -1 are narrowed with `toByte()`, and the
expected output concatenates "ff", "80", "08", "01", "00", "01" and "ff" in map
order. That gives "ff8008010001ff", which `BytesToHexVector` proves here.

## Model

| member | source | states |
|---|---|---|
| `JvmInt.ToByte` | common/src/main/java/com/pedro/common/Extensions.kt:164 | `toByte()` keeps the low 8 bits of the Int's two's-complement pattern |
| `JvmInt.AndByteMask` | common/src/main/java/com/pedro/common/Extensions.kt:177 | `b.toInt() and 0xff` is the byte's unsigned value in 0..255, for negative bytes too |
| `Extensions.IntToUInt16` | common/src/main/java/com/pedro/common/Extensions.kt:164 | exactly 2 bytes; byte 0 holds bits 8..15 and byte 1 bits 0..7 of x's pattern (big-endian) |
| `Extensions.IntToUInt24` | common/src/main/java/com/pedro/common/Extensions.kt:166-168 | exactly 3 bytes holding bits 16..23, 8..15 and 0..7 of x's pattern, most significant first |
| `Extensions.IntToUInt32` | common/src/main/java/com/pedro/common/Extensions.kt:170-172 | exactly 4 bytes holding the whole pattern of x, most significant first |
| `Extensions.ByteArrayToUInt16Value` | common/src/main/java/com/pedro/common/Extensions.kt:176-178 | the decode is in [0, 65535] and equals byte0·2^8 + byte1 (bytes unsigned); only bytes 0 and 1 are read |
| `Extensions.ByteArrayToUInt24Value` | common/src/main/java/com/pedro/common/Extensions.kt:180-182 | the decode is in [0, 2^24) and equals byte0·2^16 + byte1·2^8 + byte2; only bytes 0..2 are read |
| `Extensions.ByteArrayToUInt32Value` | common/src/main/java/com/pedro/common/Extensions.kt:184-186 | the decoded Int's bit pattern is byte0·2^24 + byte1·2^16 + byte2·2^8 + byte3, so a high byte ≥ 0x80 gives a negative Int |
| `Extensions.UInt16RoundTrip` | common/src/main/java/com/pedro/common/Extensions.kt:164-178 | decoding the 16-bit encoding of any Int x gives x mod 2^16, and x itself when 0 ≤ x < 65536 |
| `Extensions.UInt24RoundTrip` | common/src/main/java/com/pedro/common/Extensions.kt:166-182 | decoding the 24-bit encoding of any Int x gives x mod 2^24, and x itself when 0 ≤ x < 2^24 |
| `Extensions.UInt32RoundTrip` | common/src/main/java/com/pedro/common/Extensions.kt:170-186 | decoding the 32-bit encoding gives back every Int, negative ones included |
| `Extensions.UInt16EncodeOfDecode` | common/src/main/java/com/pedro/common/Extensions.kt:164-178 | encoding the 16-bit decode of an array reproduces its first two bytes |
| `Extensions.UInt24EncodeOfDecode` | common/src/main/java/com/pedro/common/Extensions.kt:166-182 | encoding the 24-bit decode of an array reproduces its first three bytes |
| `Extensions.UInt32EncodeOfDecode` | common/src/main/java/com/pedro/common/Extensions.kt:170-186 | encoding the 32-bit decode of an array reproduces its first four bytes |
| `JvmInt.ReverseBytesInvolution` | common/src/main/java/com/pedro/common/Extensions.kt:174 | reversing the byte order of an Int twice gives back the Int |
| `Extensions.IntToUInt32LittleEndian` | common/src/main/java/com/pedro/common/Extensions.kt:174 | the little-endian encoding is the big-endian encoding of x with its four bytes in reverse order |
| `Extensions.ByteArrayToUInt32LittleEndianValue` | common/src/main/java/com/pedro/common/Extensions.kt:188-190 | the decoded Int's bit pattern is byte3·2^24 + byte2·2^16 + byte1·2^8 + byte0 (least significant byte first) |
| `Extensions.UInt32LittleEndianRoundTrip` | common/src/main/java/com/pedro/common/Extensions.kt:174-190 | little-endian decode of the little-endian encoding gives back every Int |
| `Extensions.UInt32LittleEndianEncodeOfDecode` | common/src/main/java/com/pedro/common/Extensions.kt:174-190 | little-endian encode of the little-endian decode reproduces the first four bytes |
| `Extensions.BytesToHex` | common/src/main/java/com/pedro/common/Extensions.kt:98-100 | the rendering is exactly two characters per byte |
| `Extensions.BytesToHexAlphabet` | common/src/main/java/com/pedro/common/Extensions.kt:98-100 | every character of the rendering is a lowercase hex digit 0-9 or a-f |
| `Extensions.BytesToHexAt` | common/src/main/java/com/pedro/common/Extensions.kt:98-100 | characters 2i and 2i+1 are the high and low hex digits of byte i's unsigned value (byte mod 256) |
| `Extensions.BytesToHexInjective` | common/src/main/java/com/pedro/common/Extensions.kt:98-100 | two arrays with the same rendering are equal |
| `Extensions.BytesToHexVector` | rtmp/src/test/java/com/pedro/rtmp/utils/AuthUtilTest.kt:30-35 | the bytes narrowed from 255, 128, 8, 1, 0, -255, -1 render as "ff8008010001ff" |
| `Extensions.GetMd5Hash` | common/src/main/java/com/pedro/common/Extensions.kt:110-119 | without an MD5 digest (the caught exceptions) the result is ""; with one it is exactly `bytesToHex` of that digest: 2 characters per digest byte, all lowercase hex |
| `Extensions.GetIndexes` | common/src/main/java/com/pedro/common/Extensions.kt:142-146 | the result holds exactly the UTF-16 positions i with s[i] == c, each in [0, \|s\|), strictly increasing, as many as c occurs in s |
| `Extensions.GetIndexesAfterSurrogatePair` | common/src/main/java/com/pedro/common/Extensions.kt:142-146 | in "\U{1F600}/" the '/' is found at index 2, because the emoji takes two UTF-16 units |
| `Extensions.IndexListUnique` | common/src/main/java/com/pedro/common/Extensions.kt:142-146 | only one list meets `GetIndexes`' contract, so the contract determines the result |
| `Extensions.LongCompare` | common/src/main/java/com/pedro/common/Extensions.kt:238-240 | the result is -1, 0 or 1, and it is -1 exactly when a < b, 0 exactly when a == b, 1 exactly when a > b |
| `Extensions.LongCompareAntisymmetric` | common/src/main/java/com/pedro/common/Extensions.kt:238-240 | compare(a, b) == -compare(b, a) |

## Left out

- `Extensions.ByteArrayToUInt16`, `ByteArrayToUInt24`, `ByteArrayToUInt32` and `ByteArrayToUInt32LittleEndian` require the array to be at least 2, 3 or 4 bytes long. On a shorter array the Kotlin code throws `ArrayIndexOutOfBoundsException` and handles nothing, so the model treats the length as the caller's obligation.
- Fresh arrays: the encoders return a fresh mutable JVM array. The model returns its contents as a sequence, so it does not capture aliasing or later mutation by the caller. `getIndexes` likewise returns a sequence, not an `Array<Int>`.
- `Integer.reverseBytes` is JDK code and is not part of this model. `JvmInt.ReverseBytes` defines it by its documented meaning: the four bytes of the pattern in the opposite order.
- `Extensions.GetMd5Hash`: the JDK's `MessageDigest` and `String.toByteArray()` are foreign code. The digest they would produce is a parameter: `Some(bytes)` on success, `None` for the caught `NoSuchAlgorithmException` or `UnsupportedEncodingException`. MD5 itself is not modelled.
- `readUntil`, `readUInt16/24/32`, `readUInt32LittleEndian` and `writeUInt16/24/32/32LittleEndian` (Extensions.kt:192-236): stream I/O. They only pass the helpers above to an `InputStream` or `OutputStream`. `readUntil` also spins forever when the stream ends early.
- `ByteBuffer.toByteArray`, `removeInfo` and `clone` (Extensions.kt:60-77, 154): they depend on NIO buffer position and limit state.
- `trySend`, `onMainThread`, `onMainThreadHandler`, `secureSubmit`, `newSingleThreadExecutor` and `getSuspendContext` (Extensions.kt:79-130): concurrency and executor wrappers.
- `isKeyframe`, `secureGet`, `getIntegerSafe`, `getLongSafe`, `toMediaFrameInfo`, `validMessage` and `tryClear`: wrappers around Android and JVM platform objects.
- `Camera2ApiManager.kt`, `SrtStream.kt` and `SrtDisplay.kt` are not part of this model. They are camera hardware control and one-line delegation to an SRT client whose source is not available.
