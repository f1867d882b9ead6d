/** CRC-32 and Adler-32 (bs-image-encode.h): the bit loop against division of polynomials over GF(2),
    the reducing loop against unreduced sums. */
module Checksums {
  import opened Bytes

  // ── Polynomials over GF(2), highest power first ───────────────────────────────

  type Bits = seq<bool>

  /** A C++ uint32_t as its bits, the least significant first; for the reflected CRC that is the
      coefficient of the highest power first. */
  type Word = w: Bits | |w| == 32 witness Zeros(32)

  function Zeros(n: nat): (r: Bits)
    ensures |r| == n && forall i :: 0 <= i < n ==> !r[i]
  {
    seq(n, _ => false)
  }

  function Xor(a: Bits, b: Bits): (r: Bits)
    requires |a| == |b|
    ensures |r| == |a| && forall i :: 0 <= i < |a| ==> r[i] == (a[i] != b[i])
  {
    seq(|a|, i requires 0 <= i < |a| => a[i] != b[i])
  }

  function Not(a: Bits): (r: Bits)
    ensures |r| == |a| && forall i :: 0 <= i < |a| ==> r[i] == !a[i]
  {
    seq(|a|, i requires 0 <= i < |a| => !a[i])
  }

  /** The powers below 32 of the generator of RFC 2083, section 3.4. */
  const GENERATOR_POWERS: set<int> := {26, 23, 22, 16, 12, 11, 10, 8, 7, 5, 4, 2, 1, 0}

  function Digit(b: bool): nat { if b then 1 else 0 }

  /** The number that has these bits. */
  function Value(a: Bits): nat {
    if a == [] then 0 else Digit(a[0]) + 2 * Value(a[1..])
  }

  lemma {:induction false} ValueOfSum(a: Bits, b: Bits)
    ensures Value(a + b) == Value(a) + Power2(|a|) * Value(b)
  {
    hide Digit;
    if a == [] {
      assert a + b == b;
    } else {
      assert (a + b)[1..] == a[1..] + b;
      ValueOfSum(a[1..], b);
      assert Power2(|a|) == 2 * Power2(|a| - 1);
      assert Value(a) == Digit(a[0]) + 2 * Value(a[1..]);
      assert Value(a + b) == Digit(a[0]) + 2 * Value(a[1..] + b);
      hide *;
      Twice(Power2(|a| - 1), Value(b));
    }
  }

  function Power2(n: nat): nat { if n == 0 then 1 else 2 * Power2(n - 1) }

  lemma Twice(k: nat, v: nat)
    ensures 2 * (k * v) == (2 * k) * v
  {
  }

  /** 0xEDB88320, by its bytes. */
  const POLYNOMIAL: Word :=
    [false, false, false, false, false, true, false, false] + [true, true, false, false, false, false, false, true]
    + [false, false, false, true, true, true, false, true] + [true, false, true, true, false, true, true, true]

  lemma PolynomialIsTheGenerator()
    ensures Value(POLYNOMIAL) == 0xEDB88320
    ensures forall i :: 0 <= i < 32 ==> (POLYNOMIAL[i] <==> 31 - i in GENERATOR_POWERS)
  {
    PolynomialPowers();
    PolynomialValue();
  }

  lemma PolynomialPowers()
    ensures forall i :: 0 <= i < 32 ==> (POLYNOMIAL[i] <==> 31 - i in GENERATOR_POWERS)
  {
  }

  lemma PolynomialValue()
    ensures Value(POLYNOMIAL) == 0xEDB88320
  {
    var a: Bits := [false, false, false, false, false, true, false, false];
    var b: Bits := [true, true, false, false, false, false, false, true];
    var c: Bits := [false, false, false, true, true, true, false, true];
    var d: Bits := [true, false, true, true, false, true, true, true];
    PolynomialBytes(a, b, c, d);
    Powers();
    hide Value, POLYNOMIAL, Power2;
    ValueOfSum(a + b + c, d);
    ValueOfSum(a + b, c);
    ValueOfSum(a, b);
  }

  lemma PolynomialBytes(a: Bits, b: Bits, c: Bits, d: Bits)
    requires a == [false, false, false, false, false, true, false, false]
    requires b == [true, true, false, false, false, false, false, true]
    requires c == [false, false, false, true, true, true, false, true]
    requires d == [true, false, true, true, false, true, true, true]
    ensures POLYNOMIAL == a + b + c + d
    ensures Value(a) == 0x20 && Value(b) == 0x83 && Value(c) == 0xB8 && Value(d) == 0xED
  {
    hide Value;
    ValueOfEight(a);
    ValueOfEight(b);
    ValueOfEight(c);
    ValueOfEight(d);
  }

  lemma Powers()
    ensures Power2(8) == 0x100 && Power2(16) == 0x1_0000 && Power2(24) == 0x100_0000 && Power2(32) == 0x1_0000_0000
  {
    assert Power2(12) == 0x1000;
    assert Power2(20) == 0x10_0000;
    assert Power2(28) == 0x1000_0000;
  }

  lemma ValueOfFour(a: Bits)
    requires |a| == 4
    ensures Value(a) == Digit(a[0]) + 2 * Digit(a[1]) + 4 * Digit(a[2]) + 8 * Digit(a[3])
  {
    hide Digit;
    var b, c, d := a[1..], a[2..], a[3..];
    assert Value(a) == Digit(a[0]) + 2 * Value(b);
    assert b[0] == a[1] && b[1..] == c;
    assert Value(b) == Digit(b[0]) + 2 * Value(c);
    assert c[0] == a[2] && c[1..] == d;
    assert Value(c) == Digit(c[0]) + 2 * Value(d);
    assert d[0] == a[3] && d[1..] == [];
    assert Value(d) == Digit(d[0]) + 2 * Value([]);
  }

  lemma ValueOfHalves(a: Bits)
    requires |a| == 8
    ensures Value(a) == Value(a[..4]) + 16 * Value(a[4..])
  {
    assert Power2(4) == 16;
    hide Value, Power2;
    assert a == a[..4] + a[4..];
    ValueOfSum(a[..4], a[4..]);
  }

  lemma ValueOfEight(a: Bits)
    requires |a| == 8
    ensures Value(a) == Digit(a[0]) + 2 * Digit(a[1]) + 4 * Digit(a[2]) + 8 * Digit(a[3])
                      + 16 * Digit(a[4]) + 32 * Digit(a[5]) + 64 * Digit(a[6]) + 128 * Digit(a[7])
  {
    hide Digit, Value;
    ValueOfHalves(a);
    ValueOfFour(a[..4]);
    ValueOfFour(a[4..]);
  }

  /** x^32 and the powers above. */
  function Generator(): (g: Bits)
    ensures |g| == 33 && g[0] && g[1..] == POLYNOMIAL
  {
    [true] + POLYNOMIAL
  }

  /** The generator times the power x^n, or nothing. */
  function Row(bit: bool, n: nat): (r: Bits)
    ensures |r| == n + 33 && r[0] == bit
  {
    (if bit then Generator() else Zeros(33)) + Zeros(n)
  }

  /** The product with the generator: one shifted copy of it for every power in q. */
  function TimesGenerator(q: Bits): (r: Bits)
    ensures |r| == |q| + 32
  {
    if q == [] then Zeros(32) else Xor(Row(q[0], |q| - 1), [false] + TimesGenerator(q[1..]))
  }

  /** p == q * generator + r with r of a lower degree than the generator. */
  predicate Divides(p: Bits, q: Bits, r: Bits) {
    |r| == 32 && |p| == |q| + 32 && p == Xor(TimesGenerator(q), Zeros(|q|) + r)
  }

  /** Long division. */
  function Divide(p: Bits): (r: (Bits, Bits))
    requires |p| >= 32
    ensures |r.0| == |p| - 32 && |r.1| == 32
    decreases |p|
  {
    if |p| == 32 then ([], p)
    else
      var rest := Divide(NextDividend(p));
      ([p[0]] + rest.0, rest.1)
  }

  function Remainder(p: Bits): Bits
    requires |p| >= 32
  {
    Divide(p).1
  }

  /** What is left when the highest power is gone. */
  function NextDividend(p: Bits): (r: Bits)
    requires |p| > 32
    ensures |r| == |p| - 1
  {
    if p[0] then Xor(p[1..], POLYNOMIAL + Zeros(|p| - 33)) else p[1..]
  }

  lemma {:induction false} DivideDivides(p: Bits)
    requires |p| >= 32
    ensures Divides(p, Divide(p).0, Divide(p).1)
    decreases |p|
  {
    var (q, r) := Divide(p);
    if |p| == 32 {
      assert Xor(Zeros(32), [] + r) == p;
    } else {
      var p1 := NextDividend(p);
      DivideDivides(p1);
      DivisionStep(p, Divide(p1).0, r);
    }
  }

  lemma NextDividendAt(p: Bits, i: nat)
    requires |p| > 32 && i < |p| - 1
    ensures NextDividend(p)[i] == (p[i + 1] != Row(p[0], |p| - 33)[i + 1])
  {
  }

  lemma ProductAt(q: Bits, i: nat)
    requires |q| > 0 && i < |q| + 31
    ensures TimesGenerator(q)[i + 1] == (Row(q[0], |q| - 1)[i + 1] != TimesGenerator(q[1..])[i])
    ensures TimesGenerator(q)[0] == q[0]
  {
    hide Row;
  }

  /** Product and remainder make up p here. */
  predicate SumAt(p: Bits, q: Bits, r: Bits, i: nat)
    requires |r| == 32 && |p| == |q| + 32 && i < |p|
  {
    p[i] == (TimesGenerator(q)[i] != (Zeros(|q|) + r)[i])
  }

  lemma DividesAt(p: Bits, q: Bits, r: Bits)
    requires |r| == 32 && |p| == |q| + 32
    ensures Divides(p, q, r) <==> forall i: nat :: i < |p| ==> SumAt(p, q, r, i)
  {
    hide TimesGenerator, Zeros;
    var sum := Xor(TimesGenerator(q), Zeros(|q|) + r);
    assert forall i: nat :: i < |p| ==> (SumAt(p, q, r, i) <==> p[i] == sum[i]);
    if forall i: nat :: i < |p| ==> SumAt(p, q, r, i) { assert p == sum; }
  }

  /** The first digit of the quotient is the first of the dividend; the others divide the next dividend. */
  lemma NextSumAt(p: Bits, q: Bits, r: Bits, i: nat)
    requires |r| == 32 && |p| == |q| + 32 && |q| > 0 && i < |p| - 1 && p[0] == q[0]
    ensures SumAt(p, q, r, i + 1) <==> SumAt(NextDividend(p), q[1..], r, i)
  {
    hide TimesGenerator, NextDividend, Row;
    NextDividendAt(p, i);
    ProductAt(q, i);
  }

  lemma FirstSumAt(p: Bits, q: Bits, r: Bits)
    requires |r| == 32 && |p| == |q| + 32 && |q| > 0
    ensures SumAt(p, q, r, 0) <==> p[0] == q[0]
  {
    hide TimesGenerator;
    ProductAt(q, 0);
  }

  lemma DividesSizes(p: Bits, q: Bits, r: Bits)
    requires Divides(p, q, r)
    ensures |r| == 32 && |p| == |q| + 32
  {
  }

  lemma DivisionStep(p: Bits, q1: Bits, r: Bits)
    requires |p| > 32 && Divides(NextDividend(p), q1, r)
    ensures Divides(p, [p[0]] + q1, r)
  {
    hide *;
    DividesSizes(NextDividend(p), q1, r);
    var q := [p[0]] + q1;
    assert q[1..] == q1;
    DividesAt(NextDividend(p), q1, r);
    DividesAt(p, q, r);
    FirstSumAt(p, q, r);
    forall i: nat | i < |p| ensures SumAt(p, q, r, i) {
      if i > 0 { NextSumAt(p, q, r, i - 1); }
    }
  }

  /** Quotient and remainder are the only ones. */
  lemma {:induction false} DivisionIsUnique(p: Bits, q: Bits, r: Bits)
    requires Divides(p, q, r)
    ensures q == Divide(p).0 && r == Divide(p).1
    decreases |p|
  {
    if |q| == 0 {
      assert Xor(Zeros(32), [] + r) == r;
    } else {
      DivisionUnstep(p, q, r);
      DivisionIsUnique(NextDividend(p), q[1..], r);
      assert q == [q[0]] + q[1..];
    }
  }

  lemma DivisionUnstep(p: Bits, q: Bits, r: Bits)
    requires |q| > 0 && Divides(p, q, r)
    ensures p[0] == q[0] && Divides(NextDividend(p), q[1..], r)
  {
    hide *;
    DividesSizes(p, q, r);
    DividesAt(p, q, r);
    FirstSumAt(p, q, r);
    assert SumAt(p, q, r, 0);
    DividesAt(NextDividend(p), q[1..], r);
    forall i: nat | i < |p| - 1 ensures SumAt(NextDividend(p), q[1..], r, i) {
      NextSumAt(p, q, r, i);
      assert SumAt(p, q, r, i + 1);
    }
  }

  // ── png_crc32 ─────────────────────────────────────────────────────────────────

  function Low(n: nat, count: nat): (r: Bits)
    ensures |r| == count
    ensures n < Power2(count) ==> Value(r) == n
  {
    if count == 0 then [] else [n % 2 == 1] + Low(n / 2, count - 1)
  }

  /** A byte, the least significant bit first. */
  function ByteBits(b: Byte): (r: Bits)
    ensures |r| == 8 && Value(r) == b as int
  {
    assert Power2(8) == 256 by { Powers(); }
    Low(b as int, 8)
  }

  function DataBits(data: seq<Byte>): (r: Bits)
    ensures |r| == 8 * |data|
    decreases |data|
  {
    if data == [] then []
    else DataBits(data[..|data| - 1]) + ByteBits(data[|data| - 1])
  }

  /** The message as the CRC divides it: 32 zeros after it, its first 32 bits inverted. */
  function Augmented(m: Bits): (r: Bits)
    ensures |r| == |m| + 32
  {
    Xor(m + Zeros(32), Not(Zeros(32)) + Zeros(|m|))
  }

  /** The CRC-32 of RFC 2083, section 3.4: the inverted remainder. */
  function Crc32(data: seq<Byte>): (r: nat)
    ensures r < 0x1_0000_0000
  {
    WordBounded(Not(Remainder(Augmented(DataBits(data)))));
    Value(Not(Remainder(Augmented(DataBits(data)))))
  }

  lemma {:induction false} ValueBounded(a: Bits)
    ensures Value(a) < Power2(|a|)
  {
    if a != [] { ValueBounded(a[1..]); }
  }

  lemma WordBounded(a: Bits)
    requires |a| == 32
    ensures Value(a) < 0x1_0000_0000
  {
    ValueBounded(a);
    Powers();
  }

  /** c >> 1, with the polynomial wherever a one falls out. */
  function Shifted(c: Word): (r: Word) {
    Xor(c[1..] + [false], if c[0] then POLYNOMIAL else Zeros(32))
  }

  /** One message bit at a time. */
  function Run(c: Word, m: Bits): Word
    decreases |m|
  {
    if m == [] then c else Run(Shifted(c[0 := c[0] != m[0]]), m[1..])
  }

  /** What a register and the message still to come stand for. */
  function Pending(c: Word, m: Bits): (r: Bits)
    ensures |r| == |m| + 32
  {
    Xor(m + Zeros(32), c + Zeros(|m|))
  }

  lemma PendingStep(c: Word, m: Bits)
    requires m != []
    ensures NextDividend(Pending(c, m)) == Pending(Shifted(c[0 := c[0] != m[0]]), m[1..])
  {
    var p := Pending(c, m);
    var c1 := Shifted(c[0 := c[0] != m[0]]);
    var (next, after) := (NextDividend(p), Pending(c1, m[1..]));
    assert p[0] == (m[0] != c[0]);
    forall i | 0 <= i < |next| ensures next[i] == after[i] {
      assert p[i + 1] == ((m + Zeros(32))[i + 1] != (c + Zeros(|m|))[i + 1]);
      assert after[i] == ((m[1..] + Zeros(32))[i] != (c1 + Zeros(|m| - 1))[i]);
    }
  }

  /** The register ends with the remainder. */
  lemma {:induction false} RunIsRemainder(c: Word, m: Bits)
    ensures Run(c, m) == Remainder(Pending(c, m))
    decreases |m|
  {
    hide Shifted, Pending, NextDividend;
    if m == [] {
      NothingPending(c);
    } else {
      PendingStep(c, m);
      RunIsRemainder(Shifted(c[0 := c[0] != m[0]]), m[1..]);
    }
  }

  lemma NothingPending(c: Word)
    ensures Pending(c, []) == c
  {
    assert [] + Zeros(32) == Zeros(32) && c + Zeros(0) == c;
  }

  /** Xoring eight bits in at once is the same as one at a time. */
  lemma ByteAtOnce(c: Word, m: Bits)
    requires |m| == 8
    ensures Run(Xor(c, m + Zeros(24)), Zeros(8)) == Run(c, m)
  {
    hide Run, Remainder;
    var x := Xor(c, m + Zeros(24));
    RunIsRemainder(x, Zeros(8));
    RunIsRemainder(c, m);
    var (p, q) := (Pending(x, Zeros(8)), Pending(c, m));
    forall i | 0 <= i < 40 ensures p[i] == q[i] {
      assert p[i] == ((Zeros(8) + Zeros(32))[i] != (x + Zeros(8))[i]);
      assert q[i] == ((m + Zeros(32))[i] != (c + Zeros(8))[i]);
    }
    assert p == q;
  }

  lemma {:induction false} RunSplits(c: Word, a: Bits, b: Bits)
    ensures Run(c, a + b) == Run(Run(c, a), b)
    decreases |a|
  {
    hide Shifted;
    if a == [] {
      assert a + b == b;
    } else {
      assert (a + b)[1..] == a[1..] + b;
      RunSplits(Shifted(c[0 := c[0] != a[0]]), a[1..], b);
    }
  }

  lemma RunZero(c: Word, k: nat)
    ensures Run(c, Zeros(k + 1)) == Shifted(Run(c, Zeros(k)))
  {
    hide Shifted;
    RunSplits(c, Zeros(k), Zeros(1));
    assert Zeros(k) + Zeros(1) == Zeros(k + 1);
    var d := Run(c, Zeros(k));
    assert d[0 := d[0] != false] == d;
    assert Run(d, Zeros(1)) == Run(Shifted(d), Zeros(1)[1..]);
  }

  /** The mask 0u - (c & 1u): all ones or all zeros. */
  function LowBitMask(c: Word): Word {
    seq(32, _ => c[0])
  }

  function And(a: Word, b: Word): (r: Word)
    ensures forall i :: 0 <= i < 32 ==> r[i] == (a[i] && b[i])
  {
    seq(32, i requires 0 <= i < 32 => a[i] && b[i])
  }

  lemma MaskIsShifted(c: Word)
    ensures Xor(c[1..] + [false], And(POLYNOMIAL, LowBitMask(c))) == Shifted(c)
  {
    hide POLYNOMIAL;
    assert And(POLYNOMIAL, LowBitMask(c)) == if c[0] then POLYNOMIAL else Zeros(32);
  }

  /** png_crc32 computes the CRC. */
  method PngCrc32(p: seq<Byte>) returns (crc: nat)
    ensures crc == Crc32(p)
  {
    hide Run, DataBits, ByteBits, And, LowBitMask, Shifted, Value, Remainder;
    var c: Word := Not(Zeros(32));
    var i := 0;
    EmptyRun(c);
    while i < |p|
      invariant 0 <= i <= |p|
      invariant c == Run(Not(Zeros(32)), DataBits(p[..i]))
    {
      ghost var before := c;
      c := Xor(c, ByteBits(p[i]) + Zeros(24));
      ghost var mixed := c;
      EmptyRun(c);
      var k := 0;
      while k < 8
        invariant 0 <= k <= 8
        invariant c == Run(mixed, Zeros(k))
      {
        RunZero(mixed, k);
        MaskIsShifted(c);
        c := Xor(c[1..] + [false], And(POLYNOMIAL, LowBitMask(c)));
        k := k + 1;
      }
      ByteAtOnce(before, ByteBits(p[i]));
      NextByte(p, i);
      RunSplits(Not(Zeros(32)), DataBits(p[..i]), ByteBits(p[i]));
      i := i + 1;
    }
    assert p[..i] == p;
    RunIsRemainder(Not(Zeros(32)), DataBits(p));
    crc := Value(Not(c));
  }

  lemma EmptyRun(c: Word)
    ensures Run(c, []) == c && Run(c, Zeros(0)) == c && DataBits([]) == []
  {
  }

  lemma NextByte(p: seq<Byte>, i: nat)
    requires i < |p|
    ensures DataBits(p[..i + 1]) == DataBits(p[..i]) + ByteBits(p[i])
  {
    assert p[..i + 1][..i] == p[..i];
  }

  /** What that means: the inverted CRC is the one polynomial of degree below 32 that differs from the
      augmented message by a multiple of the generator. */
  lemma CrcIsTheRemainder(data: seq<Byte>, q: Bits, r: Bits)
    ensures var m := Augmented(DataBits(data));
            && Divides(m, Divide(m).0, Divide(m).1) && Crc32(data) == Value(Not(Divide(m).1))
            && (Divides(m, q, r) ==> Crc32(data) == Value(Not(r)))
  {
    hide Value, Divide, Augmented, DataBits;
    var m := Augmented(DataBits(data));
    DivideDivides(m);
    if Divides(m, q, r) { DivisionIsUnique(m, q, r); }
  }

  // ── png_adler32 ───────────────────────────────────────────────────────────────

  const ADLER_BASE: nat := 65521

  /** s1 of RFC 1950, section 8.2, without reductions. */
  function S1(data: seq<Byte>): nat
    decreases |data|
  {
    if data == [] then 1 else S1(data[..|data| - 1]) + data[|data| - 1] as int
  }

  /** s2: the sum of all s1. */
  function S2(data: seq<Byte>): nat
    decreases |data|
  {
    if data == [] then 0 else S2(data[..|data| - 1]) + S1(data)
  }

  function Adler32(data: seq<Byte>): (r: nat)
    ensures r < 0x1_0000_0000
  {
    S2(data) % 65521 * 0x1_0000 + S1(data) % 65521
  }

  lemma ModSum(a: nat, b: nat, m: nat)
    requires m > 0
    ensures (a % m + b) % m == (a + b) % m
    ensures (a % m + b % m) % m == (a + b) % m
  {
    var x, y := a % m + b, a % m + b % m;
    DivMod(a + b, m, a / m + x / m, x % m);
    DivMod(a + b, m, a / m + b / m + y / m, y % m);
  }

  /** png_adler32 reduces at every byte and never leaves 32 bits. */
  method PngAdler32(p: seq<Byte>) returns (adler: nat)
    ensures adler == Adler32(p)
  {
    var a, b := 1, 0;
    var i := 0;
    while i < |p|
      invariant 0 <= i <= |p|
      invariant a == S1(p[..i]) % 65521 && b == S2(p[..i]) % 65521
    {
      assert p[..i + 1][..i] == p[..i];
      ModSum(S1(p[..i]), p[i] as int, 65521);
      assert a + p[i] as int < 0x1_0000_0000 && b + ADLER_BASE < 0x1_0000_0000;
      a := (a + p[i] as int) % ADLER_BASE;
      ModSum(S2(p[..i]), S1(p[..i + 1]), 65521);
      b := (b + a) % ADLER_BASE;
      i := i + 1;
    }
    assert p[..i] == p;
    adler := b * 0x1_0000 + a;
  }
}
