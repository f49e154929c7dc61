/** The JVM's fixed-width integer types as Kotlin sees them (Byte, Int, Long, Char),
    and the Int operators the byte helpers are written with: `toByte()`,
    `Byte.toInt()`, and the infix `and`, `or`, `shl` and `ushr`.

    Every value is a mathematical integer inside the type's range. The bitwise
    operators act on the two's-complement bit pattern, which is read here as an
    unsigned number (`Unsigned`); the result pattern is narrowed back to an Int
    (`Wrap`), exactly as the JVM keeps only the low 32 bits. */
module JvmInt {

  /** Kotlin `Byte`: signed 8 bits. */
  newtype Int8 = x: int | -0x80 <= x < 0x80

  /** Kotlin `Int`: signed 32 bits. */
  newtype Int32 = x: int | -0x8000_0000 <= x < 0x8000_0000

  /** Kotlin `Long`: signed 64 bits. */
  newtype Int64 = x: int | -0x8000_0000_0000_0000 <= x < 0x8000_0000_0000_0000

  /** Kotlin `Char`: one unsigned 16-bit UTF-16 code unit, lone surrogates included. */
  newtype Char16 = x: int | 0 <= x < 0x1_0000

  function Pow2(n: nat): (r: nat)
    ensures r >= 1
  {
    if n == 0 then 1 else 2 * Pow2(n - 1)
  }

  lemma Pow2Bytes()
    ensures Pow2(8) == 0x100 && Pow2(16) == 0x1_0000 && Pow2(24) == 0x100_0000
  {
  }

  /** The bit pattern of an Int, read as an unsigned 32-bit number. */
  function Unsigned(x: Int32): (u: nat)
    ensures u < 0x1_0000_0000
    ensures 0 <= x ==> u == x as int
  {
    if x < 0 then x as int + 0x1_0000_0000 else x as int
  }

  /** The Int whose bit pattern is the low 32 bits of `u` (JVM narrowing). */
  function Wrap(u: int): (x: Int32)
    ensures Unsigned(x) == u % 0x1_0000_0000
    ensures 0 <= u < 0x8000_0000 ==> x as int == u
  {
    var m := u % 0x1_0000_0000;
    if m < 0x8000_0000 then m as Int32 else (m - 0x1_0000_0000) as Int32
  }

  /** Narrowing a number that already fits in 32 bits keeps it. */
  lemma WrapInRange(u: int)
    requires 0 <= u < 0x1_0000_0000
    ensures Unsigned(Wrap(u)) == u
  {
    DivModUnique(u, 0x1_0000_0000, 0, u);
  }

  /** The bit pattern of a Byte, read as an unsigned 8-bit number. */
  function UnsignedByte(b: Int8): (u: nat)
    ensures u < 0x100
    ensures 0 <= b ==> u == b as int
  {
    if b < 0 then b as int + 0x100 else b as int
  }

  /** The unsigned value of a byte determines the byte. */
  lemma UnsignedByteInjective(a: Int8, b: Int8)
    requires UnsignedByte(a) == UnsignedByte(b)
    ensures a == b
  {
  }

  /** The unsigned value of an Int's bit pattern determines the Int. */
  lemma UnsignedInjective(x: Int32, y: Int32)
    requires Unsigned(x) == Unsigned(y)
    ensures x == y
  {
  }

  /** `Int.toByte()`: keeps the least significant 8 bits, read as signed. */
  function ToByte(x: Int32): (b: Int8)
    ensures UnsignedByte(b) == Unsigned(x) % 0x100
  {
    var low := Unsigned(x) % 0x100;
    if low < 0x80 then low as Int8 else (low - 0x100) as Int8
  }

  /** `Byte.toInt()`: sign-extending widening, so the value is unchanged. */
  function ByteToInt(b: Int8): (x: Int32)
  {
    b as int as Int32
  }

  /** `java.lang.Integer.reverseBytes(x)`: the Int whose bit pattern holds the four
      bytes of x's pattern in the opposite order. */
  function ReverseBytes(x: Int32): (r: Int32)
  {
    var u := Unsigned(x);
    Wrap(u % 0x100 * 0x100_0000 + u / 0x100 % 0x100 * 0x1_0000 + u / 0x1_0000 % 0x100 * 0x100
         + u / 0x100_0000)
  }

  /** Bitwise and of two unsigned numbers, one binary digit at a time. */
  function BitAnd(a: nat, b: nat): (r: nat)
    decreases a
  {
    if a == 0 || b == 0 then 0
    else 2 * BitAnd(a / 2, b / 2) + (if a % 2 == 1 && b % 2 == 1 then 1 else 0)
  }

  /** Bitwise or of two unsigned numbers, one binary digit at a time. */
  function BitOr(a: nat, b: nat): (r: nat)
    decreases a
  {
    if a == 0 then b
    else if b == 0 then a
    else 2 * BitOr(a / 2, b / 2) + (if a % 2 == 1 || b % 2 == 1 then 1 else 0)
  }

  /** Kotlin `x and y`. */
  function And(x: Int32, y: Int32): (r: Int32)
  {
    Wrap(BitAnd(Unsigned(x), Unsigned(y)))
  }

  /** Kotlin `x or y`. */
  function Or(x: Int32, y: Int32): (r: Int32)
  {
    Wrap(BitOr(Unsigned(x), Unsigned(y)))
  }

  /** The JVM shifts an Int by the low 5 bits of the count only. */
  function ShiftDistance(n: Int32): (d: nat)
    ensures d < 32
    ensures 0 <= n < 32 ==> d == n as nat
  {
    if 0 <= n < 32 then
      DivModUnique(Unsigned(n), 32, 0, Unsigned(n));
      Unsigned(n) % 32
    else
      Unsigned(n) % 32
  }

  /** Kotlin `x shl n`. */
  function Shl(x: Int32, n: Int32): (r: Int32)
  {
    Wrap(Unsigned(x) * Pow2(ShiftDistance(n)))
  }

  /** Kotlin `x ushr n`: logical shift, zeros enter at the top. */
  function Ushr(x: Int32, n: Int32): (r: Int32)
  {
    Wrap(Unsigned(x) / Pow2(ShiftDistance(n)))
  }

  // ---------------------------------------------------------------------------
  // Arithmetic facts behind the bit operators

  /** A positive multiple of m is at least m. */
  lemma MulAtLeast(d: int, m: int)
    requires d >= 1 && m >= 1
    ensures d * m >= m
  {
    assert d * m == m + (d - 1) * m;
  }

  /** Dividing by a positive number never makes a natural number larger. */
  lemma DivAtMost(u: nat, p: nat)
    requires p >= 1
    ensures u / p <= u
  {
    var q := u / p;
    assert u == q * p + u % p;
    if q >= 1 {
      MulAtLeast(q, p);
      MulAtLeast(p, q);
    }
  }

  /** Euclidean division has only one quotient and remainder. */
  lemma DivModUnique(a: int, m: int, q: int, r: int)
    requires m >= 1 && 0 <= r < m && a == q * m + r
    ensures a / m == q && a % m == r
  {
    var q', r' := a / m, a % m;
    assert a == q' * m + r';
    assert (q - q') * m == r' - r;
    if q > q' {
      MulAtLeast(q - q', m);
    } else if q < q' {
      MulAtLeast(q' - q, m);
    }
  }

  /** The remainder by 2p splits into the lowest bit and the remainder of the rest by p. */
  lemma ModDoubleStep(a: nat, p: nat)
    requires p >= 1
    ensures a % (2 * p) == 2 * ((a / 2) % p) + a % 2
  {
    var q, r := (a / 2) / p, (a / 2) % p;
    assert a / 2 == q * p + r;
    assert a == q * (2 * p) + (2 * r + a % 2);
    DivModUnique(a, 2 * p, q, 2 * r + a % 2);
  }

  /** Any 32-bit pattern is the big-endian sum of its four bytes. */
  lemma SplitBytes(u: nat)
    requires u < 0x1_0000_0000
    ensures u / 0x100_0000 < 0x100
    ensures u == u / 0x100_0000 * 0x100_0000 + u / 0x1_0000 % 0x100 * 0x1_0000
               + u / 0x100 % 0x100 * 0x100 + u % 0x100
  {
    var q1, r0 := u / 0x100, u % 0x100;
    var q2, r1 := q1 / 0x100, q1 % 0x100;
    var q3, r2 := q2 / 0x100, q2 % 0x100;
    assert u == q3 * 0x100_0000 + (r2 * 0x1_0000 + r1 * 0x100 + r0);
    DivModUnique(u, 0x100_0000, q3, r2 * 0x1_0000 + r1 * 0x100 + r0);
    DivModUnique(u, 0x1_0000, q2, r1 * 0x100 + r0);
  }

  /** The bytes of a big-endian sum of four bytes are those bytes. */
  lemma JoinBytes(b0: nat, b1: nat, b2: nat, b3: nat)
    requires b0 < 0x100 && b1 < 0x100 && b2 < 0x100 && b3 < 0x100
    ensures var v := b0 * 0x100_0000 + b1 * 0x1_0000 + b2 * 0x100 + b3;
      v / 0x100_0000 == b0 && v / 0x1_0000 % 0x100 == b1 && v / 0x100 % 0x100 == b2 && v % 0x100 == b3
  {
    var v := b0 * 0x100_0000 + b1 * 0x1_0000 + b2 * 0x100 + b3;
    DivModUnique(v, 0x100_0000, b0, b1 * 0x1_0000 + b2 * 0x100 + b3);
    DivModUnique(v, 0x1_0000, b0 * 0x100 + b1, b2 * 0x100 + b3);
    DivModUnique(b0 * 0x100 + b1, 0x100, b0, b1);
    DivModUnique(v, 0x100, b0 * 0x1_0000 + b1 * 0x100 + b2, b3);
    DivModUnique(b0 * 0x1_0000 + b1 * 0x100 + b2, 0x100, b0 * 0x100 + b1, b2);
  }

  /** An Int whose bit pattern is a big-endian sum of four bytes has those bytes. */
  lemma BytesOfPattern(x: Int32, b0: nat, b1: nat, b2: nat, b3: nat)
    requires b0 < 0x100 && b1 < 0x100 && b2 < 0x100 && b3 < 0x100
    requires Unsigned(x) == b0 * 0x100_0000 + b1 * 0x1_0000 + b2 * 0x100 + b3
    ensures var u := Unsigned(x);
      u / 0x100_0000 == b0 && u / 0x1_0000 % 0x100 == b1 && u / 0x100 % 0x100 == b2 && u % 0x100 == b3
  {
    JoinBytes(b0, b1, b2, b3);
  }

  /** Reducing an Int modulo a divisor of 2^32 gives the same as reducing its bit pattern. */
  lemma ModOfPattern(x: Int32, m: nat, c: nat, high: int, low: int)
    requires m >= 1 && c * m == 0x1_0000_0000
    requires Unsigned(x) == high * m + low && 0 <= low < m
    ensures x as int % m == low
  {
    if x < 0 {
      assert (high - c) * m == high * m - c * m;
      DivModUnique(x as int, m, high - c, low);
    } else {
      DivModUnique(x as int, m, high, low);
    }
  }

  /** An Int modulo 2^16 is the value of the low two bytes of its bit pattern. */
  lemma LowTwoBytes(x: Int32)
    ensures var u := Unsigned(x); x as int % 0x1_0000 == u / 0x100 % 0x100 * 0x100 + u % 0x100
  {
    var u := Unsigned(x);
    SplitBytes(u);
    ModOfPattern(x, 0x1_0000, 0x1_0000, u / 0x100_0000 * 0x100 + u / 0x1_0000 % 0x100,
                 u / 0x100 % 0x100 * 0x100 + u % 0x100);
  }

  /** An Int modulo 2^24 is the value of the low three bytes of its bit pattern. */
  lemma LowThreeBytes(x: Int32)
    ensures var u := Unsigned(x);
      x as int % 0x100_0000 == u / 0x1_0000 % 0x100 * 0x1_0000 + u / 0x100 % 0x100 * 0x100 + u % 0x100
  {
    var u := Unsigned(x);
    SplitBytes(u);
    ModOfPattern(x, 0x100_0000, 0x100, u / 0x100_0000,
                 u / 0x1_0000 % 0x100 * 0x1_0000 + u / 0x100 % 0x100 * 0x100 + u % 0x100);
  }

  /** Masking with k one-bits keeps the number modulo 2^k. */
  lemma {:induction false} BitAndLowMask(a: nat, k: nat)
    ensures BitAnd(a, Pow2(k) - 1) == a % Pow2(k)
  {
    if k == 0 {
      DivModUnique(a, 1, a, 0);
    } else if a == 0 {
      DivModUnique(0, Pow2(k), 0, 0);
    } else {
      var p := Pow2(k - 1);
      assert Pow2(k) == 2 * p;
      BitAndLowMask(a / 2, k - 1);
      BitAndLowMaskStep(a, p);
    }
  }

  /** The inductive step of `BitAndLowMask`, with p standing for 2^(k-1). */
  lemma BitAndLowMaskStep(a: nat, p: nat)
    requires a > 0 && p >= 1
    requires BitAnd(a / 2, p - 1) == (a / 2) % p
    ensures BitAnd(a, 2 * p - 1) == a % (2 * p)
  {
    DivModUnique(2 * p - 1, 2, p - 1, 1);
    BitAndOddMask(a, 2 * p - 1, p - 1);
    ModDoubleStep(a, p);
  }

  /** One step of `BitAnd` against an odd mask keeps the lowest bit of a. */
  lemma BitAndOddMask(a: nat, mask: nat, half: nat)
    requires a > 0 && mask == 2 * half + 1
    requires mask / 2 == half && mask % 2 == 1
    ensures BitAnd(a, mask) == 2 * BitAnd(a / 2, half) + a % 2
  {
  }

  /** Or of two numbers whose one-bits do not overlap is their sum. */
  lemma {:induction false} BitOrDisjoint(a: nat, b: nat, k: nat)
    requires a % Pow2(k) == 0 && b < Pow2(k)
    ensures BitOr(a, b) == a + b
  {
    if k > 0 && a > 0 && b > 0 {
      ModDoubleStep(a, Pow2(k - 1));
      BitOrDisjoint(a / 2, b / 2, k - 1);
    }
  }

  // ---------------------------------------------------------------------------
  // The operator patterns the byte helpers use

  /** `b.toInt() and 0xff` is the unsigned value of the byte. */
  lemma AndByteMask(b: Int8)
    ensures And(ByteToInt(b), 0xff) as int == UnsignedByte(b)
  {
    var u := Unsigned(ByteToInt(b));
    if b < 0 {
      DivModUnique(u, 0x100, 0xFF_FFFF, b as int + 0x100);
    } else {
      DivModUnique(u, 0x100, 0, b as int);
    }
    Pow2Bytes();
    BitAndLowMask(u, 8);
    assert And(ByteToInt(b), 0xff) == Wrap(UnsignedByte(b));
  }

  /** A left shift that does not push one-bits past bit 31 multiplies. */
  lemma ShlExact(x: Int32, n: Int32)
    requires 0 <= n < 32 && 0 <= x && x as int * Pow2(n as nat) < 0x1_0000_0000
    ensures Unsigned(Shl(x, n)) == x as int * Pow2(n as nat)
  {
    WrapInRange(x as int * Pow2(n as nat));
  }

  /** An `or` of an Int whose low k bits are zero with one below 2^k adds the unsigned values. */
  lemma OrDisjoint(x: Int32, y: Int32, k: nat, p: nat, high: nat)
    requires p == Pow2(k) && Unsigned(x) == high * p && Unsigned(y) < p
    requires Unsigned(x) + Unsigned(y) < 0x1_0000_0000
    ensures Unsigned(Or(x, y)) == Unsigned(x) + Unsigned(y)
  {
    DivModUnique(high * p, p, high, 0);
    BitOrDisjoint(Unsigned(x), Unsigned(y), k);
    WrapInRange(Unsigned(x) + Unsigned(y));
  }

  /** `(b.toInt() and 0xff) shl n` is the byte's unsigned value times 2^n, for n up to 24. */
  lemma ShiftedByte(b: Int8, n: Int32, p: nat)
    requires 0 <= n <= 24 && p == Pow2(n as nat) && p <= 0x100_0000
    ensures Unsigned(Shl(And(ByteToInt(b), 0xff), n)) == UnsignedByte(b) * p
  {
    AndByteMask(b);
    ShlExact(And(ByteToInt(b), 0xff), n);
  }

  /** `(x ushr n).toByte()` is byte number n / 8 of x's bit pattern. */
  lemma ByteOfShift(x: Int32, n: Int32, p: nat)
    requires 0 <= n < 32 && p == Pow2(n as nat)
    ensures UnsignedByte(ToByte(Ushr(x, n))) == Unsigned(x) / p % 0x100
  {
    UshrDivides(x, n);
  }

  /** A logical right shift divides the unsigned value. */
  lemma UshrDivides(x: Int32, n: Int32)
    requires 0 <= n < 32
    ensures Unsigned(Ushr(x, n)) == Unsigned(x) / Pow2(n as nat)
  {
    UshrUnfold(x, n);
    QuotientFits(Unsigned(x), Pow2(n as nat));
  }

  /** With a count in 0..31, `x ushr n` divides the pattern by 2^n before narrowing. */
  lemma UshrUnfold(x: Int32, n: Int32)
    requires 0 <= n < 32
    ensures Ushr(x, n) == Wrap(Unsigned(x) / Pow2(n as nat))
  {
  }

  /** A quotient of a 32-bit pattern fits in 32 bits again. */
  lemma QuotientFits(u: nat, p: nat)
    requires u < 0x1_0000_0000 && p >= 1
    ensures Unsigned(Wrap(u / p)) == u / p
  {
    DivAtMost(u, p);
    WrapInRange(u / p);
  }

  /** The bit pattern of `ReverseBytes(x)` as a sum of x's bytes. */
  lemma ReverseBytesValue(x: Int32)
    ensures var u := Unsigned(x);
      Unsigned(ReverseBytes(x)) == u % 0x100 * 0x100_0000 + u / 0x100 % 0x100 * 0x1_0000
                                   + u / 0x1_0000 % 0x100 * 0x100 + u / 0x100_0000
  {
    var u := Unsigned(x);
    SplitBytes(u);
    var b0, b1, b2, b3 := u / 0x100_0000, u / 0x1_0000 % 0x100, u / 0x100 % 0x100, u % 0x100;
    assert b0 < 0x100 && b1 < 0x100 && b2 < 0x100 && b3 < 0x100;
    var w := b3 * 0x100_0000 + b2 * 0x1_0000 + b1 * 0x100 + b0;
    assert 0 <= w < 0x1_0000_0000;
    DivModUnique(w, 0x1_0000_0000, 0, w);
  }

  /** The bytes of `ReverseBytes(x)`, most significant first, are x's bytes least significant first. */
  lemma ReverseBytesPattern(x: Int32)
    ensures var u, v := Unsigned(x), Unsigned(ReverseBytes(x));
      v / 0x100_0000 == u % 0x100 && v / 0x1_0000 % 0x100 == u / 0x100 % 0x100
      && v / 0x100 % 0x100 == u / 0x1_0000 % 0x100 && v % 0x100 == u / 0x100_0000
  {
    var u := Unsigned(x);
    SplitBytes(u);
    ReverseBytesValue(x);
    JoinBytes(u % 0x100, u / 0x100 % 0x100, u / 0x1_0000 % 0x100, u / 0x100_0000);
  }

  /** Reversing the byte order twice gives back the Int. */
  lemma ReverseBytesInvolution(x: Int32)
    ensures ReverseBytes(ReverseBytes(x)) == x
  {
    var u, v := Unsigned(x), Unsigned(ReverseBytes(x));
    ReverseBytesPattern(x);
    ReverseBytesPattern(ReverseBytes(x));
    SplitBytes(u);
    SplitBytes(Unsigned(ReverseBytes(ReverseBytes(x))));
    assert Unsigned(ReverseBytes(ReverseBytes(x))) == u;
  }
}
