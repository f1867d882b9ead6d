/** Bytes, optional values and the big-endian integers that every wire format here uses. */
module Bytes {

  /** A C++ uint8_t (or a char read as one). */
  type Byte = b: int | 0 <= b < 256

  datatype Option<+T> = None | Some(value: T) {
    predicate IsFailure() { None? }

    function PropagateFailure<U>(): Option<U>
      requires None?
    {
      None
    }

    function Extract(): T
      requires Some?
    {
      value
    }
  }

  /** write_u16: high byte first. */
  function Be16(v: int): (s: seq<Byte>)
    requires 0 <= v < 0x1_0000
  {
    [v / 0x100, v % 0x100]
  }

  /** write_u32be, put_be32. */
  function Be32(v: int): (s: seq<Byte>)
    requires 0 <= v < 0x1_0000_0000
  {
    [v / 0x100_0000, v / 0x1_0000 % 0x100, v / 0x100 % 0x100, v % 0x100]
  }

  /** u64be: the high half, then the low half. */
  function Be64(v: int): (s: seq<Byte>)
    requires 0 <= v < 0x1_0000_0000_0000_0000
  {
    Be32(v / 0x1_0000_0000) + Be32(v % 0x1_0000_0000)
  }

  /** read_u16. */
  function ReadU16(s: seq<Byte>): int
    requires |s| >= 2
  {
    s[0] as int * 0x100 + s[1] as int
  }

  /** read_u32be, get_be32. */
  function ReadU32(s: seq<Byte>): int
    requires |s| >= 4
  {
    s[0] as int * 0x100_0000 + s[1] as int * 0x1_0000 + s[2] as int * 0x100 + s[3] as int
  }

  function ReadU64(s: seq<Byte>): int
    requires |s| >= 8
  {
    ReadU32(s[..4]) * 0x1_0000_0000 + ReadU32(s[4..8])
  }

  lemma Be16RoundTrip(v: int, rest: seq<Byte>)
    requires 0 <= v < 0x1_0000
    ensures ReadU16(Be16(v) + rest) == v
    ensures (Be16(v) + rest)[2..] == rest
  {
  }

  lemma Be32RoundTrip(v: int, rest: seq<Byte>)
    requires 0 <= v < 0x1_0000_0000
    ensures ReadU32(Be32(v) + rest) == v
    ensures (Be32(v) + rest)[4..] == rest
  {
    var s := Be32(v) + rest;
    assert s[0] == v / 0x100_0000 && s[1] == v / 0x1_0000 % 0x100 && s[2] == v / 0x100 % 0x100 && s[3] == v % 0x100;
    assert v / 0x1_0000 == v / 0x100 / 0x100 && v / 0x100_0000 == v / 0x100 / 0x100 / 0x100;
  }

  lemma Be64RoundTrip(v: int, rest: seq<Byte>)
    requires 0 <= v < 0x1_0000_0000_0000_0000
    ensures ReadU64(Be64(v) + rest) == v
    ensures (Be64(v) + rest)[8..] == rest
  {
    var hi, lo := v / 0x1_0000_0000, v % 0x1_0000_0000;
    var s := Be64(v) + rest;
    Be32RoundTrip(hi, []);
    Be32RoundTrip(lo, []);
    assert s[..4] == Be32(hi) + [];
    assert s[4..8] == Be32(lo) + [];
  }

  function Power256(n: nat): (r: nat)
    ensures r > 0
  {
    if n == 0 then 1 else 0x100 * Power256(n - 1)
  }

  lemma MulNonNegative(a: int, b: int)
    requires a >= 0 && b >= 0
    ensures a * b >= 0
  {
  }

  /** The quotient and remainder are the only ones. */
  lemma DivMod(n: int, d: int, q: int, r: int)
    requires 0 <= r < d && n == q * d + r
    ensures n / d == q && n % d == r
  {
    var k, r' := q - n / d, n % d;
    assert k * d == r' - r;
    assert k * d == (k - 1) * d + d && -(k * d) == (-k - 1) * d + d;
    if k >= 1 { MulNonNegative(k - 1, d); } else if k <= -1 { MulNonNegative(-k - 1, d); }
  }
}
