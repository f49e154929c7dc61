/** The pure binary helpers of the common module's Extensions.kt: fixed-width
    big-endian and little-endian integer codecs over byte arrays, lowercase hex
    rendering, the MD5-hex composition, the character-index finder for strings
    and the three-way comparison of Longs.

    A Kotlin `ByteArray` is a sequence of `Int8` here; the helpers that build one
    return a fresh array, which as a value is a sequence. */
module Extensions {
  import opened JvmInt

  datatype Option<T> = None | Some(value: T)

  /** Bytes 1, 2 and 3 of an Int's bit pattern, as `(x ushr n).toByte()` extracts them. */
  lemma ShiftedBytes(x: Int32)
    ensures UnsignedByte(ToByte(Ushr(x, 8))) == Unsigned(x) / 0x100 % 0x100
    ensures UnsignedByte(ToByte(Ushr(x, 16))) == Unsigned(x) / 0x1_0000 % 0x100
    ensures UnsignedByte(ToByte(Ushr(x, 24))) == Unsigned(x) / 0x100_0000
  {
    Pow2Bytes();
    ByteOfShift(x, 8, 0x100);
    ByteOfShift(x, 16, 0x1_0000);
    ByteOfShift(x, 24, 0x100_0000);
    var top := Unsigned(x) / 0x100_0000;
    SplitBytes(Unsigned(x));
    DivModUnique(top, 0x100, 0, top);
  }

  // ---------------------------------------------------------------------------
  // Int.toUInt16 / toUInt24 / toUInt32: big-endian encoders

  /** `Int.toUInt16()`: the low 16 bits of `x`, most significant byte first. */
  function IntToUInt16(x: Int32): (r: seq<Int8>)
    ensures |r| == 2
    ensures UnsignedByte(r[0]) == Unsigned(x) / 0x100 % 0x100
    ensures UnsignedByte(r[1]) == Unsigned(x) % 0x100
  {
    ShiftedBytes(x);
    [ToByte(Ushr(x, 8)), ToByte(x)]
  }

  /** `Int.toUInt24()`: the low 24 bits of `x`, most significant byte first. */
  function IntToUInt24(x: Int32): (r: seq<Int8>)
    ensures |r| == 3
    ensures UnsignedByte(r[0]) == Unsigned(x) / 0x1_0000 % 0x100
    ensures UnsignedByte(r[1]) == Unsigned(x) / 0x100 % 0x100
    ensures UnsignedByte(r[2]) == Unsigned(x) % 0x100
  {
    ShiftedBytes(x);
    [ToByte(Ushr(x, 16)), ToByte(Ushr(x, 8)), ToByte(x)]
  }

  /** `Int.toUInt32()`: all 32 bits of `x`, most significant byte first. */
  function IntToUInt32(x: Int32): (r: seq<Int8>)
    ensures |r| == 4
    ensures UnsignedByte(r[0]) == Unsigned(x) / 0x100_0000
    ensures UnsignedByte(r[1]) == Unsigned(x) / 0x1_0000 % 0x100
    ensures UnsignedByte(r[2]) == Unsigned(x) / 0x100 % 0x100
    ensures UnsignedByte(r[3]) == Unsigned(x) % 0x100
  {
    ShiftedBytes(x);
    [ToByte(Ushr(x, 24)), ToByte(Ushr(x, 16)), ToByte(Ushr(x, 8)), ToByte(x)]
  }

  // ---------------------------------------------------------------------------
  // ByteArray.toUInt16 / toUInt24 / toUInt32: big-endian decoders.
  // Kotlin's infix `and`, `shl` and `or` share one precedence and group to the
  // left, so `b[0].toInt() and 0xff shl 8 or (...)` is `((b[0] and 0xff) shl 8) or (...)`.

  /** `ByteArray.toUInt16()`: reads bytes 0 and 1; a shorter array throws. */
  function ByteArrayToUInt16(b: seq<Int8>): (r: Int32)
    requires |b| >= 2
  {
    Or(Shl(And(ByteToInt(b[0]), 0xff), 8), And(ByteToInt(b[1]), 0xff))
  }

  /** `ByteArray.toUInt24()`: reads bytes 0 to 2; a shorter array throws. */
  function ByteArrayToUInt24(b: seq<Int8>): (r: Int32)
    requires |b| >= 3
  {
    Or(Or(Shl(And(ByteToInt(b[0]), 0xff), 16), Shl(And(ByteToInt(b[1]), 0xff), 8)),
       And(ByteToInt(b[2]), 0xff))
  }

  /** `ByteArray.toUInt32()`: reads bytes 0 to 3; a shorter array throws. */
  function ByteArrayToUInt32(b: seq<Int8>): (r: Int32)
    requires |b| >= 4
  {
    Or(Or(Or(Shl(And(ByteToInt(b[0]), 0xff), 24), Shl(And(ByteToInt(b[1]), 0xff), 16)),
          Shl(And(ByteToInt(b[2]), 0xff), 8)),
       And(ByteToInt(b[3]), 0xff))
  }

  /** The 16-bit decoder yields the big-endian unsigned value of the first two bytes. */
  lemma ByteArrayToUInt16Value(b: seq<Int8>)
    requires |b| >= 2
    ensures 0 <= ByteArrayToUInt16(b) < 0x1_0000
    ensures ByteArrayToUInt16(b) as int == UnsignedByte(b[0]) * 0x100 + UnsignedByte(b[1])
  {
    Pow2Bytes();
    var u0, u1 := UnsignedByte(b[0]), UnsignedByte(b[1]);
    var s0 := Shl(And(ByteToInt(b[0]), 0xff), 8);
    var s1 := And(ByteToInt(b[1]), 0xff);
    ShiftedByte(b[0], 8, 0x100);
    AndByteMask(b[1]);
    OrDisjoint(s0, s1, 8, 0x100, u0);
  }

  /** The 24-bit decoder yields the big-endian unsigned value of the first three bytes. */
  lemma ByteArrayToUInt24Value(b: seq<Int8>)
    requires |b| >= 3
    ensures 0 <= ByteArrayToUInt24(b) < 0x100_0000
    ensures ByteArrayToUInt24(b) as int
         == UnsignedByte(b[0]) * 0x1_0000 + UnsignedByte(b[1]) * 0x100 + UnsignedByte(b[2])
  {
    Pow2Bytes();
    var u0, u1, u2 := UnsignedByte(b[0]), UnsignedByte(b[1]), UnsignedByte(b[2]);
    var s0 := Shl(And(ByteToInt(b[0]), 0xff), 16);
    var s1 := Shl(And(ByteToInt(b[1]), 0xff), 8);
    var s2 := And(ByteToInt(b[2]), 0xff);
    ShiftedByte(b[0], 16, 0x1_0000);
    ShiftedByte(b[1], 8, 0x100);
    AndByteMask(b[2]);
    OrDisjoint(s0, s1, 16, 0x1_0000, u0);
    OrDisjoint(Or(s0, s1), s2, 8, 0x100, u0 * 0x100 + u1);
  }

  /** The 32-bit decoder yields the Int whose bit pattern is the first four bytes, big-endian. */
  lemma ByteArrayToUInt32Value(b: seq<Int8>)
    requires |b| >= 4
    ensures Unsigned(ByteArrayToUInt32(b))
         == UnsignedByte(b[0]) * 0x100_0000 + UnsignedByte(b[1]) * 0x1_0000
          + UnsignedByte(b[2]) * 0x100 + UnsignedByte(b[3])
  {
    Pow2Bytes();
    var u0, u1, u2, u3 := UnsignedByte(b[0]), UnsignedByte(b[1]), UnsignedByte(b[2]), UnsignedByte(b[3]);
    var s0 := Shl(And(ByteToInt(b[0]), 0xff), 24);
    var s1 := Shl(And(ByteToInt(b[1]), 0xff), 16);
    var s2 := Shl(And(ByteToInt(b[2]), 0xff), 8);
    var s3 := And(ByteToInt(b[3]), 0xff);
    ShiftedByte(b[0], 24, 0x100_0000);
    ShiftedByte(b[1], 16, 0x1_0000);
    ShiftedByte(b[2], 8, 0x100);
    AndByteMask(b[3]);
    OrDisjoint(s0, s1, 24, 0x100_0000, u0);
    OrDisjoint(Or(s0, s1), s2, 16, 0x1_0000, u0 * 0x100 + u1);
    OrDisjoint(Or(Or(s0, s1), s2), s3, 8, 0x100, u0 * 0x1_0000 + u1 * 0x100 + u2);
  }

  // ---------------------------------------------------------------------------
  // Round trips of the big-endian codecs

  /** Decoding the 16-bit encoding gives `x` modulo 2^16, so `x` itself when it fits. */
  lemma UInt16RoundTrip(x: Int32)
    ensures ByteArrayToUInt16(IntToUInt16(x)) as int == x as int % 0x1_0000
    ensures 0 <= x < 0x1_0000 ==> ByteArrayToUInt16(IntToUInt16(x)) == x
  {
    ByteArrayToUInt16Value(IntToUInt16(x));
    LowTwoBytes(x);
    if 0 <= x < 0x1_0000 {
      DivModUnique(x as int, 0x1_0000, 0, x as int);
    }
  }

  /** Decoding the 24-bit encoding gives `x` modulo 2^24, so `x` itself when it fits. */
  lemma UInt24RoundTrip(x: Int32)
    ensures ByteArrayToUInt24(IntToUInt24(x)) as int == x as int % 0x100_0000
    ensures 0 <= x < 0x100_0000 ==> ByteArrayToUInt24(IntToUInt24(x)) == x
  {
    ByteArrayToUInt24Value(IntToUInt24(x));
    LowThreeBytes(x);
    if 0 <= x < 0x100_0000 {
      DivModUnique(x as int, 0x100_0000, 0, x as int);
    }
  }

  /** Decoding the 32-bit encoding gives back every Int, negative ones included. */
  lemma UInt32RoundTrip(x: Int32)
    ensures ByteArrayToUInt32(IntToUInt32(x)) == x
  {
    ByteArrayToUInt32Value(IntToUInt32(x));
    SplitBytes(Unsigned(x));
    UnsignedInjective(ByteArrayToUInt32(IntToUInt32(x)), x);
  }

  /** Encoding the 16-bit decode reproduces the two bytes read. */
  lemma UInt16EncodeOfDecode(b: seq<Int8>)
    requires |b| >= 2
    ensures IntToUInt16(ByteArrayToUInt16(b)) == b[..2]
  {
    ByteArrayToUInt16Value(b);
    JoinBytes(0, 0, UnsignedByte(b[0]), UnsignedByte(b[1]));
    var r := IntToUInt16(ByteArrayToUInt16(b));
    UnsignedByteInjective(r[0], b[0]);
    UnsignedByteInjective(r[1], b[1]);
  }

  /** Encoding the 24-bit decode reproduces the three bytes read. */
  lemma UInt24EncodeOfDecode(b: seq<Int8>)
    requires |b| >= 3
    ensures IntToUInt24(ByteArrayToUInt24(b)) == b[..3]
  {
    ByteArrayToUInt24Value(b);
    JoinBytes(0, UnsignedByte(b[0]), UnsignedByte(b[1]), UnsignedByte(b[2]));
    var r := IntToUInt24(ByteArrayToUInt24(b));
    UnsignedByteInjective(r[0], b[0]);
    UnsignedByteInjective(r[1], b[1]);
    UnsignedByteInjective(r[2], b[2]);
  }

  /** Encoding the 32-bit decode reproduces the four bytes read. */
  lemma UInt32EncodeOfDecode(b: seq<Int8>)
    requires |b| >= 4
    ensures IntToUInt32(ByteArrayToUInt32(b)) == b[..4]
  {
    ByteArrayToUInt32Value(b);
    EncodeOfPattern(ByteArrayToUInt32(b), b[..4]);
  }

  /** Encoding an Int whose bit pattern is four bytes, big-endian, gives back those bytes. */
  lemma EncodeOfPattern(x: Int32, b: seq<Int8>)
    requires |b| == 4
    requires Unsigned(x) == UnsignedByte(b[0]) * 0x100_0000 + UnsignedByte(b[1]) * 0x1_0000
                          + UnsignedByte(b[2]) * 0x100 + UnsignedByte(b[3])
    ensures IntToUInt32(x) == b
  {
    BytesOfPattern(x, UnsignedByte(b[0]), UnsignedByte(b[1]), UnsignedByte(b[2]), UnsignedByte(b[3]));
    var r := IntToUInt32(x);
    UnsignedByteInjective(r[0], b[0]);
    UnsignedByteInjective(r[1], b[1]);
    UnsignedByteInjective(r[2], b[2]);
    UnsignedByteInjective(r[3], b[3]);
  }

  // ---------------------------------------------------------------------------
  // Little-endian codecs, built on the big-endian ones by byte reversal

  /** `Int.toUInt32LittleEndian()`: the four bytes of `toUInt32()` in the opposite order. */
  function IntToUInt32LittleEndian(x: Int32): (r: seq<Int8>)
    ensures var e := IntToUInt32(x); r == [e[3], e[2], e[1], e[0]]
  {
    ReverseBytesPattern(x);
    var r := IntToUInt32(ReverseBytes(x));
    var e := IntToUInt32(x);
    UnsignedByteInjective(r[0], e[3]);
    UnsignedByteInjective(r[1], e[2]);
    UnsignedByteInjective(r[2], e[1]);
    UnsignedByteInjective(r[3], e[0]);
    r
  }

  /** `ByteArray.toUInt32LittleEndian()`: reads bytes 0 to 3, least significant first. */
  function ByteArrayToUInt32LittleEndian(b: seq<Int8>): (r: Int32)
    requires |b| >= 4
  {
    ReverseBytes(ByteArrayToUInt32(b))
  }

  /** The little-endian decoder yields the Int whose bit pattern is the first four bytes,
      least significant first. */
  lemma ByteArrayToUInt32LittleEndianValue(b: seq<Int8>)
    requires |b| >= 4
    ensures Unsigned(ByteArrayToUInt32LittleEndian(b))
         == UnsignedByte(b[3]) * 0x100_0000 + UnsignedByte(b[2]) * 0x1_0000
          + UnsignedByte(b[1]) * 0x100 + UnsignedByte(b[0])
  {
    var d := ByteArrayToUInt32(b);
    ByteArrayToUInt32Value(b);
    BytesOfPattern(d, UnsignedByte(b[0]), UnsignedByte(b[1]), UnsignedByte(b[2]), UnsignedByte(b[3]));
    ReverseBytesValue(d);
  }

  /** Little-endian decode of the little-endian encoding gives back every Int. */
  lemma UInt32LittleEndianRoundTrip(x: Int32)
    ensures ByteArrayToUInt32LittleEndian(IntToUInt32LittleEndian(x)) == x
  {
    UInt32RoundTrip(ReverseBytes(x));
    ReverseBytesInvolution(x);
  }

  /** Little-endian encode of the little-endian decode reproduces the four bytes read. */
  lemma UInt32LittleEndianEncodeOfDecode(b: seq<Int8>)
    requires |b| >= 4
    ensures IntToUInt32LittleEndian(ByteArrayToUInt32LittleEndian(b)) == b[..4]
  {
    ReverseBytesInvolution(ByteArrayToUInt32(b));
    UInt32EncodeOfDecode(b);
  }

  // ---------------------------------------------------------------------------
  // ByteArray.bytesToHex and String.getMd5Hash

  const HexAlphabet: string := "0123456789abcdef"

  /** A lowercase hex digit. */
  function HexDigit(n: nat): (c: char)
    requires n < 16
    ensures c in HexAlphabet
  {
    HexAlphabet[n]
  }

  lemma HexDigitInjective(m: nat, n: nat)
    requires m < 16 && n < 16 && HexDigit(m) == HexDigit(n)
    ensures m == n
  {
  }

  /** `"%02x".format(b)`: Java formats a negative Byte as its value plus 2^8, so the two
      digits are those of the unsigned value, zero-padded. */
  function ByteToHex(b: Int8): (r: string)
  {
    [HexDigit(UnsignedByte(b) / 16), HexDigit(UnsignedByte(b) % 16)]
  }

  /** `ByteArray.bytesToHex()`: the bytes' two-digit renderings joined in order, with no separator. */
  function BytesToHex(bytes: seq<Int8>): (r: string)
    ensures |r| == 2 * |bytes|
  {
    if |bytes| == 0 then "" else ByteToHex(bytes[0]) + BytesToHex(bytes[1..])
  }

  /** The rendering uses only the lowercase hex digits. */
  lemma {:induction false} BytesToHexAlphabet(bytes: seq<Int8>)
    ensures forall i :: 0 <= i < |BytesToHex(bytes)| ==> BytesToHex(bytes)[i] in HexAlphabet
  {
    if |bytes| > 0 {
      BytesToHexAlphabet(bytes[1..]);
      var head, rest := ByteToHex(bytes[0]), BytesToHex(bytes[1..]);
      assert BytesToHex(bytes) == head + rest;
      forall i | 0 <= i < |head + rest|
        ensures (head + rest)[i] in HexAlphabet
      {
        if i >= 2 {
          assert (head + rest)[i] == rest[i - 2];
        }
      }
    }
  }

  /** Characters 2i and 2i+1 of the rendering are the high and low hex digits of byte i. */
  lemma {:induction false} BytesToHexAt(bytes: seq<Int8>, i: nat)
    requires i < |bytes|
    ensures BytesToHex(bytes)[2 * i] == HexDigit(UnsignedByte(bytes[i]) / 16)
    ensures BytesToHex(bytes)[2 * i + 1] == HexDigit(UnsignedByte(bytes[i]) % 16)
  {
    var head, rest := ByteToHex(bytes[0]), BytesToHex(bytes[1..]);
    assert BytesToHex(bytes) == head + rest;
    if i > 0 {
      BytesToHexAt(bytes[1..], i - 1);
      assert bytes[1..][i - 1] == bytes[i];
      assert (head + rest)[2 * i] == rest[2 * (i - 1)];
      assert (head + rest)[2 * i + 1] == rest[2 * (i - 1) + 1];
    }
  }

  /** Different byte arrays never render to the same hex string. */
  lemma BytesToHexInjective(a: seq<Int8>, b: seq<Int8>)
    requires BytesToHex(a) == BytesToHex(b)
    ensures a == b
  {
    assert |a| == |b|;
    forall i | 0 <= i < |a|
      ensures a[i] == b[i]
    {
      BytesToHexAt(a, i);
      BytesToHexAt(b, i);
      var ua, ub := UnsignedByte(a[i]), UnsignedByte(b[i]);
      HexDigitInjective(ua / 16, ub / 16);
      HexDigitInjective(ua % 16, ub % 16);
      UnsignedByteInjective(a[i], b[i]);
    }
  }

  /** The vector of AuthUtilTest: the Ints 255, 128, 8, 1, 0, -255, -1 narrowed with
      `toByte()` render as "ff", "80", "08", "01", "00", "01", "ff". */
  lemma BytesToHexVector()
    ensures BytesToHex([ToByte(255), ToByte(128), ToByte(8), ToByte(1), ToByte(0), ToByte(-255), ToByte(-1)])
         == "ff8008010001ff"
  {
    NarrowedVector();
    RenderedVector([-1, -128, 8, 1, 0, 1, -1]);
  }

  lemma NarrowedVector()
    ensures [ToByte(255), ToByte(128), ToByte(8), ToByte(1), ToByte(0), ToByte(-255), ToByte(-1)]
         == [-1, -128, 8, 1, 0, 1, -1]
  {
  }

  /** The bytes of the vector render digit by digit; `v` is a parameter so that the
      rendering is not unfolded on the literal. */
  lemma RenderedVector(v: seq<Int8>)
    requires v == [-1, -128, 8, 1, 0, 1, -1]
    ensures BytesToHex(v) == "ff8008010001ff"
  {
    DigitsAt(v, 0, 15, 15);
    DigitsAt(v, 1, 8, 0);
    DigitsAt(v, 2, 0, 8);
    DigitsAt(v, 3, 0, 1);
    DigitsAt(v, 4, 0, 0);
    DigitsAt(v, 5, 0, 1);
    DigitsAt(v, 6, 15, 15);
  }

  /** Byte i of v, whose unsigned value has the hex digits high and low, renders as those two. */
  lemma DigitsAt(v: seq<Int8>, i: nat, high: nat, low: nat)
    requires i < |v| && high < 16 && low < 16 && UnsignedByte(v[i]) == high * 16 + low
    ensures BytesToHex(v)[2 * i] == HexAlphabet[high] && BytesToHex(v)[2 * i + 1] == HexAlphabet[low]
  {
    BytesToHexAt(v, i);
    DivModUnique(UnsignedByte(v[i]), 16, high, low);
  }

  /** `String.getMd5Hash()`: the hex rendering of the MD5 digest of the string's bytes, or the
      empty string when the platform cannot provide MD5. The digest comes from the JDK's
      MessageDigest and is a parameter here: `None` for the caught exceptions. */
  function GetMd5Hash(digest: Option<seq<Int8>>): (r: string)
    ensures digest.None? ==> r == ""
    ensures digest.Some? ==> r == BytesToHex(digest.value) && |r| == 2 * |digest.value|
    ensures forall i :: 0 <= i < |r| ==> r[i] in HexAlphabet
  {
    match digest
    case None => ""
    case Some(d) => BytesToHexAlphabet(d); BytesToHex(d)
  }

  // ---------------------------------------------------------------------------
  // String.getIndexes

  /** `xs` lists, in increasing order, exactly the positions of `c` in `s`. */
  ghost predicate IsIndexList(s: seq<Char16>, c: Char16, xs: seq<nat>)
  {
    (forall k :: 0 <= k < |xs| ==> xs[k] < |s| && s[xs[k]] == c)
    && (forall i :: 0 <= i < |s| && s[i] == c ==> i in xs)
    && (forall k, l :: 0 <= k < l < |xs| ==> xs[k] < xs[l])
  }

  /** `String.getIndexes(char)`: every position holding `char`, in increasing order. A Kotlin
      String is a sequence of UTF-16 code units and `forEachIndexed` counts in those units,
      so the string is a sequence of `Char16` here. */
  method GetIndexes(s: seq<Char16>, c: Char16) returns (indexes: seq<nat>)
    ensures IsIndexList(s, c, indexes)
    ensures |indexes| == multiset(s)[c]
  {
    indexes := [];
    for index := 0 to |s|
      invariant IsIndexList(s[..index], c, indexes)
      invariant |indexes| == multiset(s[..index])[c]
    {
      if s[index] == c {
        IndexListStep(s, c, indexes, index, indexes + [index]);
        indexes := indexes + [index];
      } else {
        IndexListStep(s, c, indexes, index, indexes);
      }
    }
    assert s[..|s|] == s;
  }

  /** One iteration of `GetIndexes`: looking at position n extends the index list of s[..n]
      to the index list of s[..n + 1]. */
  lemma IndexListStep(s: seq<Char16>, c: Char16, xs: seq<nat>, n: nat, ys: seq<nat>)
    requires n < |s| && IsIndexList(s[..n], c, xs) && |xs| == multiset(s[..n])[c]
    requires ys == if s[n] == c then xs + [n] else xs
    ensures IsIndexList(s[..n + 1], c, ys) && |ys| == multiset(s[..n + 1])[c]
  {
    assert s[..n + 1] == s[..n] + [s[n]];
    forall k | 0 <= k < |xs|
      ensures xs[k] < n && s[xs[k]] == c
    {
      assert s[..n][xs[k]] == s[xs[k]];
    }
    forall i | 0 <= i < n + 1 && s[i] == c
      ensures i in ys
    {
      if i < n {
        assert s[..n][i] == s[i];
      }
    }
  }

  /** Two increasing lists with the same elements are equal. */
  lemma {:induction false} IncreasingListsEqual(xs: seq<nat>, ys: seq<nat>)
    requires forall k, l :: 0 <= k < l < |xs| ==> xs[k] < xs[l]
    requires forall k, l :: 0 <= k < l < |ys| ==> ys[k] < ys[l]
    requires forall v :: v in xs <==> v in ys
    ensures xs == ys
  {
    assert |xs| > 0 ==> xs[0] in ys;
    assert |ys| > 0 ==> ys[0] in xs;
    if xs != [] && ys != [] {
      assert xs[0] == ys[0] by {
        assert xs[0] in ys;
        assert ys[0] in xs;
      }
      forall v
        ensures v in xs[1..] <==> v in ys[1..]
      {
        if v in xs[1..] {
          assert v in ys;
        }
        if v in ys[1..] {
          assert v in xs;
        }
      }
      IncreasingListsEqual(xs[1..], ys[1..]);
    }
  }

  /** The contract of `GetIndexes` fixes its result: only one list meets it. */
  lemma IndexListUnique(s: seq<Char16>, c: Char16, xs: seq<nat>, ys: seq<nat>)
    requires IsIndexList(s, c, xs) && IsIndexList(s, c, ys)
    ensures xs == ys
  {
    IncreasingListsEqual(xs, ys);
  }

  /** "\U{1F600}/" is the code units D83D, DE00, 002F in a Kotlin String, so the '/' sits at
      index 2: positions count UTF-16 units, not code points. */
  method GetIndexesAfterSurrogatePair() returns (indexes: seq<nat>)
    ensures indexes == [2]
  {
    var s: seq<Char16> := [0xD83D, 0xDE00, 0x2F];
    indexes := GetIndexes(s, 0x2F);
    IndexListUnique(s, 0x2F, indexes, [2]);
  }

  // ---------------------------------------------------------------------------
  // Long.compare

  /** `Long.compare(l)`: -1, 0 or 1 as `a` is below, equal to or above `b`. */
  function LongCompare(a: Int64, b: Int64): (r: Int32)
    ensures r == -1 || r == 0 || r == 1
    ensures r == -1 <==> a < b
    ensures r == 0 <==> a == b
    ensures r == 1 <==> a > b
  {
    if a < b then -1 else if a > b then 1 else 0
  }

  lemma LongCompareAntisymmetric(a: Int64, b: Int64)
    ensures LongCompare(a, b) == -LongCompare(b, a)
  {
  }
}
