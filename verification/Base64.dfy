/** The three base64 coders: b64enc and b64dec (bs-mesh-support.h), the padded base64_encode
    (bs-mesh-cli.h) and the digit loop of decode_osc52_body (bs-osc52.h). */
module Base64 {
  import opened Bytes

  // ── The alphabet: A-Z, a-z, 0-9, '+', '/' ────────────────────────────────────

  type Sextet = v: int | 0 <= v < 64

  function Digit(v: Sextet): char {
    if v < 26 then ('A' as int + v) as char
    else if v < 52 then ('a' as int + (v - 26)) as char
    else if v < 62 then ('0' as int + (v - 52)) as char
    else if v == 62 then '+'
    else '/'
  }

  /** kRev: the digit's value, -1 for any other character. */
  function Rev(c: char): (v: int)
    ensures -1 <= v < 64
  {
    if 'A' <= c <= 'Z' then c as int - 'A' as int
    else if 'a' <= c <= 'z' then c as int - 'a' as int + 26
    else if '0' <= c <= '9' then c as int - '0' as int + 52
    else if c == '+' then 62
    else if c == '/' then 63
    else -1
  }

  /** The table of b64dec: characters outside the alphabet, '=' among them, count as digit 0. */
  function TableValue(c: char): Sextet {
    if Rev(c) < 0 then 0 else Rev(c)
  }

  /** The alphabet of RFC 4648, section 4. */
  lemma DigitIs(v: Sextet)
    ensures v < 26 ==> Digit(v) == "ABCDEFGHIJKLMNOPQRSTUVWXYZ"[v]
    ensures 26 <= v < 52 ==> Digit(v) == "abcdefghijklmnopqrstuvwxyz"[v - 26]
    ensures 52 <= v < 62 ==> Digit(v) == "0123456789"[v - 52]
    ensures Digit(62) == '+' && Digit(63) == '/'
  {
  }

  /** Which characters count as digits. */
  lemma RevIs(c: char)
    ensures Rev(c) >= 0 <==> 'A' <= c <= 'Z' || 'a' <= c <= 'z' || '0' <= c <= '9' || c == '+' || c == '/'
    ensures Rev(c) >= 0 ==> Digit(Rev(c)) == c
  {
  }

  lemma RevOfDigit(v: Sextet)
    ensures Rev(Digit(v)) == v && Digit(v) != '='
  {
  }

  // ── Encoding (RFC 4648 section 4) ─────────────────────────────────────────────

  /** The six-bit groups of a byte string, zero bits completing the last. */
  function Sextets(d: seq<Byte>): seq<Sextet> {
    if |d| == 0 then []
    else if |d| == 1 then [d[0] / 4, d[0] % 4 * 16]
    else if |d| == 2 then [d[0] / 4, d[0] % 4 * 16 + d[1] / 16, d[1] % 16 * 4]
    else Quad(d[0], d[1], d[2]) + Sextets(d[3..])
  }

  function Quad(x: Byte, y: Byte, z: Byte): seq<Sextet> {
    [x / 4, x % 4 * 16 + y / 16, y % 16 * 4 + z / 64, z % 64]
  }

  function Digits(vs: seq<Sextet>): (s: string)
    ensures |s| == |vs|
  {
    seq(|vs|, i requires 0 <= i < |vs| => Digit(vs[i]))
  }

  function Pad(n: nat): string {
    if n % 3 == 0 then "" else if n % 3 == 1 then "==" else "="
  }

  function Unpadded(d: seq<Byte>): string { Digits(Sextets(d)) }

  function Padded(d: seq<Byte>): string { Unpadded(d) + Pad(|d|) }

  lemma {:induction false} SextetsCount(d: seq<Byte>)
    ensures |Sextets(d)| == (|d| * 8 + 5) / 6
  {
    if |d| >= 3 {
      SextetsCount(d[3..]);
      assert |Sextets(d)| == 4 + |Sextets(d[3..])|;
    }
  }

  /** RFC 4648 section 3.2: padding completes the last group of four. */
  lemma PaddedLength(d: seq<Byte>)
    ensures |Padded(d)| == (|d| + 2) / 3 * 4
  {
    SextetsCount(d);
    var q, r := |d| / 3, |d| % 3;
    DivMod(|d| * 8 + 5, 6, 4 * q + [0, 2, 3][r], [5, 1, 3][r]);
    DivMod(|d| + 2, 3, q + if r == 0 then 0 else 1, [2, 0, 1][r]);
  }

  lemma PaddedStep(d: seq<Byte>)
    requires |d| >= 3
    ensures Padded(d) == Digits(Quad(d[0], d[1], d[2])) + Padded(d[3..])
  {
  }

  /** The four digits of the 24-bit group v. */
  function GroupDigits(v: int): string
    requires 0 <= v < 0x100_0000
  {
    [Digit(v / 0x4_0000), Digit(v / 0x1000 % 64), Digit(v / 64 % 64), Digit(v % 64)]
  }

  lemma GroupIsQuad(x: Byte, y: Byte, z: Byte)
    ensures var v := x as int * 0x1_0000 + y as int * 0x100 + z as int;
            0 <= v < 0x100_0000 && GroupDigits(v) == Digits(Quad(x, y, z))
  {
    var v := x as int * 0x1_0000 + y as int * 0x100 + z as int;
    var x1, x0, y1, y0, z1, z0 := x / 4, x % 4, y / 16, y % 16, z / 64, z % 64;
    DivMod(v, 0x4_0000, x1, x0 as int * 0x1_0000 + y as int * 0x100 + z as int);
    DivMod(v, 0x1000, x as int * 16 + y1, y0 as int * 0x100 + z as int);
    DivMod(v / 0x1000, 64, x1, x0 as int * 16 + y1);
    DivMod(v, 64, x as int * 1024 + y as int * 4 + z1, z0);
    DivMod(v / 64, 64, x as int * 16 + y1, y0 as int * 4 + z1);
  }

  /** b64enc: whole groups with '=' fill-ins, which are then popped again. */
  method B64Enc(d: seq<Byte>) returns (out: string)
    ensures out == Unpadded(d)
  {
    hide *;
    PaddedNothing([]);
    assert d[0..] == d;
    out := "";
    var i := 0;
    while i < |d|
      invariant 0 <= i && (i < |d| ==> out + Padded(d[i..]) == Padded(d))
      invariant i >= |d| ==> out == Padded(d)
      decreases |d| - i
    {
      var v := d[i] as int * 0x1_0000 + (if i + 1 < |d| then d[i + 1] as int * 0x100 else 0)
                                      + (if i + 2 < |d| then d[i + 2] as int else 0);
      var last2 := if i + 1 < |d| then Digit(v / 64 % 64) else '=';
      var last := if i + 2 < |d| then Digit(v % 64) else '=';
      EncodeGroup(d, i, v);
      out := out + [Digit(v / 0x4_0000), Digit(v / 0x1000 % 64), last2, last];
      i := i + 3;
    }
    PaddedIs(d);
    ghost var all, n := Padded(d), |Unpadded(d)|;
    while out != "" && out[|out| - 1] == '='
      invariant n <= |out| <= |all| && out == all[..|out|]
      decreases |out|
    {
      out := out[..|out| - 1];
    }
  }

  lemma PaddedIs(d: seq<Byte>)
    ensures Padded(d) == Unpadded(d) + Pad(|d|)
    ensures forall k :: |Unpadded(d)| <= k < |Padded(d)| ==> Padded(d)[k] == '='
    ensures Unpadded(d) == "" || Unpadded(d)[|Unpadded(d)| - 1] != '='
  {
    var vs := Sextets(d);
    if vs != [] { RevOfDigit(vs[|vs| - 1]); }
  }

  /** base64_encode: whole groups, then one padded group. */
  method Base64Encode(d: seq<Byte>) returns (out: string)
    ensures out == Padded(d)
  {
    hide Digit, Padded;
    PaddedNothing([]);
    out := "";
    var i := 0;
    assert d[0..] == d;
    while i + 2 < |d|
      invariant 0 <= i <= |d| && out + Padded(d[i..]) == Padded(d)
      decreases |d| - i
    {
      var n := d[i] as int * 0x1_0000 + d[i + 1] as int * 0x100 + d[i + 2] as int;
      EncodeGroup(d, i, n);
      out := out + GroupDigits(n);
      i := i + 3;
      if i == |d| { assert d[i..] == []; }
    }
    if i == |d| { assert d[i..] == []; }
    if i < |d| {
      var n := d[i] as int * 0x1_0000;
      if i + 1 < |d| { n := n + d[i + 1] as int * 0x100; }
      EncodeGroup(d, i, n);
      out := out + [Digit(n / 0x4_0000), Digit(n / 0x1000 % 64)];
      out := out + [if i + 1 < |d| then Digit(n / 64 % 64) else '='];
      out := out + "=";
    }
  }

  /** One turn of either encoder: the group at i, then what is left. */
  lemma EncodeGroup(d: seq<Byte>, i: nat, v: int)
    requires i < |d|
    requires v == d[i] as int * 0x1_0000 + (if i + 1 < |d| then d[i + 1] as int * 0x100 else 0)
                                         + (if i + 2 < |d| then d[i + 2] as int else 0)
    ensures 0 <= v < 0x100_0000
    ensures var group := [Digit(v / 0x4_0000), Digit(v / 0x1000 % 64),
                          if i + 1 < |d| then Digit(v / 64 % 64) else '=',
                          if i + 2 < |d| then Digit(v % 64) else '='];
            Padded(d[i..]) == group + (if i + 3 < |d| then Padded(d[i + 3..]) else "")
  {
    hide Digit, Sextets;
    var e := d[i..];
    var x := d[i];
    var y := if i + 1 < |d| then d[i + 1] else 0;
    var z := if i + 2 < |d| then d[i + 2] else 0;
    GroupIsQuad(x, y, z);
    if |e| >= 3 {
      PaddedStep(e);
      assert e[3..] == d[i + 3..];
      if |e| == 3 { PaddedNothing(e[3..]); }
    } else {
      PaddedLast(e);
    }
  }

  lemma PaddedNothing(d: seq<Byte>)
    requires d == []
    ensures Padded(d) == ""
  {
  }

  lemma PaddedLast(d: seq<Byte>)
    requires 1 <= |d| <= 2
    ensures var q := Digits(Quad(d[0], if |d| == 2 then d[1] else 0, 0));
            Padded(d) == if |d| == 1 then q[..2] + "==" else q[..3] + "="
  {
    hide Digit;
  }

  // ── Decoding ──────────────────────────────────────────────────────────────────

  /** What a decoder has read: the bytes out, and fewer than eight pending bits. */
  datatype Acc = Acc(pending: nat, bits: nat, out: seq<Byte>) {
    predicate Valid() { bits in {0, 2, 4, 6} && pending < Pow2(bits) }
  }

  function Pow2(n: nat): nat {
    if n == 0 then 1 else if n == 2 then 4 else if n == 4 then 16 else 64
  }

  function Feed(a: Acc, v: Sextet): (r: Acc)
    requires a.Valid()
    ensures r.Valid()
  {
    var p := a.pending * 64 + v;
    if a.bits == 0 then Acc(p, 6, a.out)
    else Acc(p % Pow2(a.bits - 2), a.bits - 2, a.out + [p / Pow2(a.bits - 2)])
  }

  function FeedAll(a: Acc, vs: seq<Sextet>): (r: Acc)
    requires a.Valid()
    ensures r.Valid()
    decreases |vs|
  {
    if vs == [] then a else FeedAll(Feed(a, vs[0]), vs[1..])
  }

  const Start := Acc(0, 0, [])

  /** The bytes that a run of sextets spells: every complete eight bits, in order. */
  function Decoded(vs: seq<Sextet>): seq<Byte> { FeedAll(Start, vs).out }

  lemma {:induction false} FeedAllAppend(a: Acc, us: seq<Sextet>, vs: seq<Sextet>)
    requires a.Valid()
    ensures FeedAll(a, us + vs) == FeedAll(FeedAll(a, us), vs)
    decreases |us|
  {
    if us == [] {
      assert us + vs == vs;
    } else {
      var all := us + vs;
      assert all[0] == us[0] && all[1..] == us[1..] + vs;
      FeedAllAppend(Feed(a, us[0]), us[1..], vs);
    }
  }

  lemma FeedTwo(out: seq<Byte>, u: Sextet, v: Sextet)
    ensures FeedAll(Acc(0, 0, out), [u, v]) == Acc(v % 16, 4, out + [u * 4 + v / 16])
  {
    hide FeedAll;
    FeedNext(Acc(0, 0, out), [u, v]);
    FeedNext(Acc(u, 6, out), [v]);
    assert [u, v][1..] == [v] && [v][1..] == [];
    FeedNone(Feed(Acc(u, 6, out), v));
    DivMod(u * 64 + v, 16, u * 4 + v / 16, v % 16);
  }

  lemma FeedThird(pending: nat, out: seq<Byte>, v: Sextet)
    requires pending < 16
    ensures FeedAll(Acc(pending, 4, out), [v]) == Acc(v % 4, 2, out + [pending * 16 + v / 4])
  {
    assert [v][1..] == [];
  }

  lemma FeedFourth(pending: nat, out: seq<Byte>, v: Sextet)
    requires pending < 4
    ensures FeedAll(Acc(pending, 2, out), [v]) == Acc(0, 0, out + [pending * 64 + v])
  {
    assert [v][1..] == [];
  }

  lemma FeedQuad(out: seq<Byte>, x: Byte, y: Byte, z: Byte)
    ensures FeedAll(Acc(0, 0, out), Quad(x, y, z)) == Acc(0, 0, out + [x, y, z])
  {
    hide FeedAll, Feed;
    var q := Quad(x, y, z);
    assert q == [q[0], q[1]] + [q[2]] + [q[3]];
    FeedAllAppend(Acc(0, 0, out), [q[0], q[1]] + [q[2]], [q[3]]);
    FeedAllAppend(Acc(0, 0, out), [q[0], q[1]], [q[2]]);
    FeedTwo(out, q[0], q[1]);
    FeedThird(q[1] % 16, out + [x], q[2]);
    FeedFourth(q[2] % 4, out + [x] + [y], q[3]);
    assert out + [x] + [y] + [z] == out + [x, y, z];
  }

  lemma DecodeOne(out: seq<Byte>, x: Byte)
    ensures FeedAll(Acc(0, 0, out), [x / 4, x % 4 * 16]) == Acc(0, 4, out + [x])
  {
    hide FeedAll;
    FeedTwo(out, x / 4, x % 4 * 16);
    assert x % 4 * 16 % 16 == 0;
  }

  lemma DecodeTwo(out: seq<Byte>, x: Byte, y: Byte)
    ensures FeedAll(Acc(0, 0, out), [x / 4, x % 4 * 16 + y / 16, y % 16 * 4]) == Acc(0, 2, out + [x, y])
  {
    hide FeedAll, Feed;
    var (u, v, w) := (x / 4, x % 4 * 16 + y / 16, y % 16 * 4);
    assert [u, v, w] == [u, v] + [w];
    FeedAllAppend(Acc(0, 0, out), [u, v], [w]);
    FeedTwo(out, u, v);
    FeedThird(y / 16, out + [x], w);
    assert out + [x] + [y] == out + [x, y];
  }

  /** Decoding undoes encoding, and leaves only the zero bits that filled the last group. */
  lemma {:induction false} DecodeSextets(d: seq<Byte>, out: seq<Byte>)
    ensures FeedAll(Acc(0, 0, out), Sextets(d)) == Acc(0, [0, 4, 2][|d| % 3], out + d)
  {
    hide FeedAll, Feed;
    if |d| == 0 {
      FeedNone(Acc(0, 0, out));
      assert out + d == out;
    } else if |d| == 1 {
      DecodeOne(out, d[0]);
      assert d == [d[0]];
    } else if |d| == 2 {
      DecodeTwo(out, d[0], d[1]);
      assert d == [d[0], d[1]];
    } else {
      hide Quad;
      var q := [d[0], d[1], d[2]];
      FeedAllAppend(Acc(0, 0, out), Quad(d[0], d[1], d[2]), Sextets(d[3..]));
      FeedQuad(out, d[0], d[1], d[2]);
      DecodeSextets(d[3..], out + q);
      assert out + q + d[3..] == out + d;
    }
  }

  lemma FeedNone(a: Acc)
    requires a.Valid()
    ensures FeedAll(a, []) == a
  {
  }

  function TableValues(s: string): (vs: seq<Sextet>)
    ensures |vs| == |s|
  {
    seq(|s|, i requires 0 <= i < |s| => TableValue(s[i]))
  }

  /** A 32-bit accumulator that wraps still holds the pending bits and the next sextet. */
  lemma WrappedShift(acc: int, bits: nat, v: Sextet)
    requires 0 <= acc < 0x1_0000_0000 && bits in {0, 2, 4, 6}
    ensures var next := acc * 64 % 0x1_0000_0000 + v;
            next % (Pow2(bits) * 64) == acc % Pow2(bits) * 64 + v
  {
    var hi, lo := acc / 0x400_0000, acc % 0x400_0000;
    DivMod(acc * 64, 0x1_0000_0000, hi, lo * 64);
    if bits == 0 {
      DivMod(lo * 64 + v, 64, lo, v);
    } else if bits == 2 {
      DivMod(acc, 4, hi * 0x100_0000 + lo / 4, lo % 4);
      DivMod(lo * 64 + v, 256, lo / 4, lo % 4 * 64 + v);
    } else if bits == 4 {
      DivMod(acc, 16, hi * 0x40_0000 + lo / 16, lo % 16);
      DivMod(lo * 64 + v, 1024, lo / 16, lo % 16 * 64 + v);
    } else {
      DivMod(acc, 64, hi * 0x10_0000 + lo / 64, lo % 64);
      DivMod(lo * 64 + v, 4096, lo / 64, lo % 64 * 64 + v);
    }
  }

  function Shifted(acc: int, v: Sextet): (r: int)
    requires 0 <= acc
    ensures 0 <= r < 0x1_0000_0000
  {
    acc * 64 % 0x1_0000_0000 + v
  }

  /** One turn of b64dec's loop is one Feed. */
  lemma ShiftIsFeed(acc: int, bits: nat, out: seq<Byte>, v: Sextet)
    requires 0 <= acc < 0x1_0000_0000 && bits in {0, 2, 4, 6}
    ensures var next := Shifted(acc, v);
            var a := Acc(acc % Pow2(bits), bits, out);
            a.Valid() &&
            Feed(a, v) == if bits == 0 then Acc(next % 64, 6, out)
                          else Acc(next % Pow2(bits - 2), bits - 2, out + [next / Pow2(bits - 2) % 256])
  {
    WrappedShift(acc, bits, v);
    if bits > 0 { ByteAt(Shifted(acc, v), bits - 2, acc % Pow2(bits) * 64 + v); }
  }

  /** b64dec, with its uint32_t accumulator: `acc << 6` drops the top bits. */
  method B64Dec(s: string) returns (out: seq<Byte>)
    ensures out == Decoded(TableValues(s))
  {
    hide FeedAll, TableValue, Feed, Shifted;
    ghost var vs := TableValues(s);
    out := [];
    var acc, bits := 0, 0;
    assert vs[0..] == vs;
    for i := 0 to |s|
      invariant 0 <= acc < 0x1_0000_0000 && bits in {0, 2, 4, 6}
      invariant FeedAll(Acc(acc % Pow2(bits), bits, out), vs[i..]) == FeedAll(Start, vs)
    {
      var v := TableValue(s[i]);
      ShiftIsFeed(acc, bits, out, v);
      FeedNext(Acc(acc % Pow2(bits), bits, out), vs[i..]);
      assert vs[i..][1..] == vs[i + 1..];
      acc := Shifted(acc, v);
      bits := bits + 6;
      if bits >= 8 {
        bits := bits - 8;
        out := out + [acc / Pow2(bits) % 256];
      }
    }
    FeedNone(Acc(acc % Pow2(bits), bits, out));
    assert vs[|s|..] == [];
  }

  lemma FeedNext(a: Acc, vs: seq<Sextet>)
    requires a.Valid() && vs != []
    ensures FeedAll(a, vs) == FeedAll(Feed(a, vs[0]), vs[1..])
  {
  }

  /** Reading a byte off the accumulator reads it off the pending bits. */
  lemma ByteAt(acc: int, bits: nat, p: nat)
    requires 0 <= acc && bits in {0, 2, 4} && p < Pow2(bits) * 256
    requires acc % (Pow2(bits) * 256) == p
    ensures acc / Pow2(bits) % 256 == p / Pow2(bits) < 256
    ensures acc % Pow2(bits) == p % Pow2(bits)
  {
    var m := Pow2(bits);
    var q, a, b := acc / (m * 256), p / m, p % m;
    assert acc == q * (m * 256) + a * m + b;
    DivMod(acc, m, q * 256 + a, b);
    assert a < 256;
    DivMod(q * 256 + a, 256, q, a);
  }

  lemma TableValuesOfDigits(vs: seq<Sextet>)
    ensures TableValues(Digits(vs)) == vs
  {
    forall i | 0 <= i < |vs| ensures TableValue(Digits(vs)[i]) == vs[i] {
      RevOfDigit(vs[i]);
    }
  }

  /** b64dec undoes b64enc on every byte string. */
  lemma B64RoundTrip(d: seq<Byte>)
    ensures Decoded(TableValues(Unpadded(d))) == d
  {
    TableValuesOfDigits(Sextets(d));
    DecodeSextets(d, []);
  }

  lemma PadValues(n: nat)
    ensures TableValues(Pad(n)) == [[], [0, 0], [0]][n % 3]
  {
  }

  lemma TableValuesAppend(s: string, t: string)
    ensures TableValues(s + t) == TableValues(s) + TableValues(t)
  {
  }

  lemma FeedPad(d: seq<Byte>, n: nat)
    requires n < 3
    ensures FeedAll(Acc(0, [0, 4, 2][n], d), [[], [0, 0], [0]][n]) == Acc(0, 0, d + [[], [0, 0], [0]][n])
  {
    hide FeedAll, Feed;
    if n == 0 {
      FeedNone(Acc(0, 0, d));
      assert d + [] == d;
    } else if n == 1 {
      assert [0, 0] == [0] + [0];
      FeedAllAppend(Acc(0, 4, d), [0], [0]);
      FeedThird(0, d, 0);
      FeedFourth(0, d + [0], 0);
      assert d + [0] + [0] == d + [0, 0];
    } else {
      FeedFourth(0, d, 0);
    }
  }

  /** It does not undo base64_encode: '=' counts as a digit, so each one completes a zero byte. */
  lemma B64DecOfPadded(d: seq<Byte>)
    ensures Decoded(TableValues(Padded(d))) == d + [[], [0, 0], [0]][|d| % 3]
  {
    hide FeedAll, Feed, TableValues, Sextets, Digits, Pad;
    TableValuesAppend(Unpadded(d), Pad(|d|));
    TableValuesOfDigits(Sextets(d));
    PadValues(|d|);
    DecodeSextets(d, []);
    assert [] + d == d;
    FeedAllAppend(Start, Sextets(d), TableValues(Pad(|d|)));
    FeedPad(d, |d| % 3);
  }

  /** Mixing the two coders is safe exactly for whole groups of three bytes. */
  lemma B64DecUndoesPaddedIff(d: seq<Byte>)
    ensures Decoded(TableValues(Padded(d))) == d <==> |d| % 3 == 0
  {
    B64DecOfPadded(d);
    if |d| % 3 != 0 {
      assert |d + [[], [0, 0], [0]][|d| % 3]| > |d|;
    }
  }
}
