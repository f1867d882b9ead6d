/** The serializer and decoder of bs-codec.h: the fields that messages are made of, how they are written,
    and how a list of field kinds is read back. */
module Wire {
  import opened Bytes

  type U16 = v: int | 0 <= v < 0x1_0000
  type U32 = v: int | 0 <= v < 0x1_0000_0000
  type U64 = v: int | 0 <= v < 0x1_0000_0000_0000_0000

  /** One call of the serializer. Blob is a u32 length and that many bytes. */
  datatype Field =
    | U8(b: Byte)
    | U16(w: U16)
    | U32(d: U32)
    | U64(q: U64)
    | Str8(s: seq<Byte>)
    | Str16(s: seq<Byte>)
    | Blob(s: seq<Byte>)
    | Raw(s: seq<Byte>)

  /** One call of the decoder; Opt reads only if so many bytes are left and takes the default otherwise. */
  datatype Kind =
    | KU8
    | KU16
    | KU32
    | KU64
    | KStr8
    | KStr16
    | KBlob(cap: nat)
    | KRaw(n: nat)
    | KRest
    | KOpt(need: nat, kind: Kind, default: Field)

  // ── Writing ───────────────────────────────────────────────────────────────────

  /** None where the serializer throws: a string too long for its length field. */
  function Enc(f: Field): Option<seq<Byte>> {
    match f
    case U8(v) => Some([v])
    case U16(v) => Some(Be16(v))
    case U32(v) => Some(Be32(v))
    case U64(v) => Some(Be64(v))
    case Str8(s) => if |s| > 0xFF then None else Some([|s|] + s)
    case Str16(s) => if |s| > 0xFFFF then None else Some(Be16(|s|) + s)
    case Blob(s) => Some(Be32(|s| % 0x1_0000_0000) + s)
    case Raw(s) => Some(s)
  }

  function EncAll(fs: seq<Field>): Option<seq<Byte>> {
    if fs == [] then Some([])
    else
      var first :- Enc(fs[0]);
      var rest :- EncAll(fs[1..]);
      Some(first + rest)
  }

  class Serializer {
    var out: seq<Byte>

    constructor ()
      ensures out == []
    {
      out := [];
    }

    method PutU8(v: Byte)
      modifies this
      ensures out == old(out) + [v]
    {
      out := out + [v];
    }

    method PutU16(v: U16)
      modifies this
      ensures out == old(out) + Be16(v)
    {
      out := out + [v / 0x100, v % 0x100];
    }

    /** u32be and u64be push the bytes from the top, one shift each. */
    method PutBe(v: U64, bytes: nat)
      requires bytes <= 8 && v < Power256(bytes)
      modifies this
      ensures out == old(out) + BigEndian(v, bytes)
    {
      hide Power256, BigEndian;
      BigEndianStart(v, bytes);
      var i := bytes;
      while i > 0
        invariant 0 <= i <= bytes
        invariant 0 <= v / Power256(i) < 0x1_0000_0000_0000_0000
        invariant out == old(out) + BigEndian(v / Power256(i), bytes - i)
      {
        i := i - 1;
        BigEndianStep(v, i, bytes);
        out := out + [v / Power256(i) % 0x100];
      }
      BigEndianAll(v, bytes);
    }

    method PutU32(v: U32)
      modifies this
      ensures out == old(out) + Be32(v)
    {
      BigEndianIsBe(v);
      PutBe(v, 4);
    }

    method PutU64(v: U64)
      modifies this
      ensures out == old(out) + Be64(v)
    {
      BigEndianIsBe64(v);
      PutBe(v, 8);
    }

    method PutStr8(s: seq<Byte>) returns (ok: bool)
      modifies this
      ensures ok == Enc(Str8(s)).Some?
      ensures out == if ok then old(out) + Enc(Str8(s)).value else old(out)
    {
      ok := |s| <= 0xFF;
      if ok {
        PutU8(|s|);
        out := out + s;
      }
    }

    method PutStr16(s: seq<Byte>) returns (ok: bool)
      modifies this
      ensures ok == Enc(Str16(s)).Some?
      ensures out == if ok then old(out) + Enc(Str16(s)).value else old(out)
    {
      ok := |s| <= 0xFFFF;
      if ok {
        PutU16(|s|);
        out := out + s;
      }
    }

    method Put(f: Field) returns (ok: bool)
      modifies this
      ensures ok == Enc(f).Some?
      ensures out == if ok then old(out) + Enc(f).value else old(out)
    {
      ok := true;
      match f {
        case U8(v) => PutU8(v);
        case U16(v) => PutU16(v);
        case U32(v) => PutU32(v);
        case U64(v) => PutU64(v);
        case Str8(s) => ok := PutStr8(s);
        case Str16(s) => ok := PutStr16(s);
        case Blob(s) =>
          PutU32(|s| % 0x1_0000_0000);
          out := out + s;
        case Raw(s) => out := out + s;
      }
    }

    /** A message: its fields in turn, up to the one that throws. */
    method PutAll(fs: seq<Field>) returns (ok: bool)
      modifies this
      ensures ok == EncAll(fs).Some?
      ensures ok ==> out == old(out) + EncAll(fs).value
    {
      hide *;
      ok := true;
      var i := 0;
      ghost var start := out;
      ghost var done: seq<Byte> := [];
      assert fs[0..] == fs;
      NothingDone(fs);
      while i < |fs|
        invariant 0 <= i <= |fs|
        invariant out == start + done
        invariant Left(fs, i, done)
      {
        LeftStep(fs, i, done);
        ok := Put(fs[i]);
        if !ok { return; }
        JoinThree(start, done, Enc(fs[i]).value);
        done := done + Enc(fs[i]).value;
        i := i + 1;
      }
      AllDone(fs, done);
    }
  }

  /** The fields from i on are what is missing after done. */
  ghost predicate Left(fs: seq<Field>, i: nat, done: seq<Byte>)
    requires i <= |fs|
  {
    && EncAll(fs).Some? == EncAll(fs[i..]).Some?
    && (EncAll(fs).Some? ==> EncAll(fs).value == done + EncAll(fs[i..]).value)
  }

  lemma NothingDone(fs: seq<Field>)
    ensures Left(fs, 0, [])
  {
    assert fs[0..] == fs;
  }

  lemma LeftStep(fs: seq<Field>, i: nat, done: seq<Byte>)
    requires i < |fs| && Left(fs, i, done)
    ensures Enc(fs[i]).None? ==> EncAll(fs).None?
    ensures Enc(fs[i]).Some? ==> Left(fs, i + 1, done + Enc(fs[i]).value)
  {
    EncStep(fs[i..]);
    hide Enc, EncAll;
    assert fs[i..][1..] == fs[i + 1..];
    if Enc(fs[i]).Some? && EncAll(fs[i + 1..]).Some? {
      JoinThree(done, Enc(fs[i]).value, EncAll(fs[i + 1..]).value);
    }
  }

  lemma JoinThree(a: seq<Byte>, b: seq<Byte>, c: seq<Byte>)
    ensures (a + b) + c == a + (b + c)
  {
  }

  lemma AllDone(fs: seq<Field>, done: seq<Byte>)
    requires Left(fs, |fs|, done)
    ensures EncAll(fs) == Some(done)
  {
    assert fs[|fs|..] == [];
    assert done + [] == done;
  }

  lemma EncStep(fs: seq<Field>)
    requires fs != []
    ensures EncAll(fs).Some? == (Enc(fs[0]).Some? && EncAll(fs[1..]).Some?)
    ensures EncAll(fs).Some? ==> EncAll(fs).value == Enc(fs[0]).value + EncAll(fs[1..]).value
    ensures EncAll([]) == Some([])
  {
    hide Enc;
  }

  /** Strings fit behind one or two length bytes. */
  predicate FieldFits(f: Field) { (f.Str8? ==> |f.s| <= 255) && (f.Str16? ==> |f.s| <= 65535) }

  predicate AllFieldsFit(fs: seq<Field>) { forall i :: 0 <= i < |fs| ==> FieldFits(fs[i]) }

  /** A list of fields is written exactly if every string fits its length field. */
  lemma {:induction false} EncAllIff(fs: seq<Field>)
    ensures EncAll(fs).Some? <==> AllFieldsFit(fs)
  {
    if fs != [] {
      EncAllIff(fs[1..]);
      EncStep(fs);
      EncIff(fs[0]);
      hide Enc, EncAll, FieldFits;
      assert forall i :: 0 < i < |fs| ==> fs[i] == fs[1..][i - 1];
    }
  }

  lemma EncIff(f: Field)
    ensures Enc(f).Some? <==> FieldFits(f)
  {
  }

  function BigEndian(v: U64, n: nat): (r: seq<Byte>)
    ensures |r| == n
  {
    if n == 0 then [] else BigEndian(v / 0x100, n - 1) + [v % 0x100]
  }

  lemma BigEndianStep(v: U64, i: nat, bytes: nat)
    requires i < bytes
    ensures 0 <= v / Power256(i) < 0x1_0000_0000_0000_0000 && 0 <= v / Power256(i + 1) < 0x1_0000_0000_0000_0000
    ensures BigEndian(v / Power256(i), bytes - i) == BigEndian(v / Power256(i + 1), bytes - i - 1) + [v / Power256(i) % 0x100]
  {
    ShiftByte(v, i);
    ShiftByte(v, i + 1);
  }

  lemma BigEndianAll(v: U64, bytes: nat)
    ensures v / Power256(0) == v
  {
  }

  lemma BigEndianStart(v: U64, bytes: nat)
    requires v < Power256(bytes)
    ensures v / Power256(bytes) == 0 && BigEndian(0, 0) == []
  {
    DivMod(v, Power256(bytes), 0, v);
  }

  lemma DivBounds(v: nat, p: nat)
    requires p > 0
    ensures 0 <= v / p <= v
  {
    var (q, r) := (v / p, v % p);
    assert v == q * p + r;
    assert (-q - 1) * p == -(q * p) - p && q * (p - 1) == q * p - q;
    if q < 0 { MulNonNegative(-q - 1, p); }
    if q > v { MulNonNegative(q, p - 1); }
  }

  lemma DivTwice(v: nat, p: nat)
    requires p > 0
    ensures v / (0x100 * p) == v / p / 0x100
  {
    var (q, r) := (v / p, v % p);
    var (s, t) := (q / 0x100, q % 0x100);
    MulNonNegative(t, p);
    MulNonNegative(0xFF - t, p);
    assert v == q * p + r && q == s * 0x100 + t;
    assert q * p == s * (0x100 * p) + t * p;
    assert (0xFF - t) * p == 0xFF * p - t * p;
    DivMod(v, 0x100 * p, s, t * p + r);
  }

  lemma ShiftByte(v: U64, i: nat)
    ensures 0 <= v / Power256(i) < 0x1_0000_0000_0000_0000 && v / Power256(i + 1) == v / Power256(i) / 0x100
  {
    DivBounds(v, Power256(i));
    DivTwice(v, Power256(i));
  }

  lemma BigEndianIsBe(v: U32)
    ensures BigEndian(v, 4) == Be32(v) && v < Power256(4)
  {
    assert Power256(2) == 0x1_0000;
    assert v / 0x100 / 0x100 == v / 0x1_0000 && v / 0x1_0000 / 0x100 == v / 0x100_0000;
    assert BigEndian(v / 0x100_0000, 1) == [v / 0x100_0000];
    assert BigEndian(v / 0x1_0000, 2) == [v / 0x100_0000, v / 0x1_0000 % 0x100];
    assert BigEndian(v / 0x100, 3) == [v / 0x100_0000, v / 0x1_0000 % 0x100, v / 0x100 % 0x100];
  }

  lemma {:induction false} BigEndianSplits(v: U64, n: nat, m: nat)
    ensures 0 <= v / Power256(m) < 0x1_0000_0000_0000_0000
    ensures BigEndian(v, n + m) == BigEndian(v / Power256(m), n) + BigEndian(v % Power256(m), m)
    decreases m
  {
    ShiftByte(v, m);
    if m == 0 {
      assert v % 1 == 0;
    } else {
      ShiftByte(v, m - 1);
      BigEndianSplits(v / 0x100, n, m - 1);
      ModBytes(v, m);
    }
  }

  lemma ModBytes(v: U64, m: nat)
    requires m > 0
    ensures v % Power256(m) / 0x100 == v / 0x100 % Power256(m - 1)
    ensures v % Power256(m) % 0x100 == v % 0x100
    ensures v / Power256(m) == v / 0x100 / Power256(m - 1)
  {
    var p := Power256(m - 1);
    var (h, l) := (v / 0x100, v % 0x100);
    var (q, r) := (h / p, h % p);
    assert h == q * p + r;
    assert v == q * (0x100 * p) + (0x100 * r + l);
    DivMod(v, 0x100 * p, q, 0x100 * r + l);
    assert (0x100 * r + l) / 0x100 == r && (0x100 * r + l) % 0x100 == l;
  }

  lemma BigEndianIsBe64(v: U64)
    ensures BigEndian(v, 8) == Be64(v) && v < Power256(8)
  {
    assert Power256(4) == 0x1_0000_0000;
    assert Power256(6) == 0x1_0000 * Power256(4);
    assert Power256(8) == 0x1_0000 * Power256(6);
    BigEndianSplits(v, 4, 4);
    BigEndianIsBe(v / 0x1_0000_0000);
    BigEndianIsBe(v % 0x1_0000_0000);
  }

  // ── Reading ───────────────────────────────────────────────────────────────────

  /** str_size and bytes_size: n bytes and the rest. */
  function Counted(n: nat, s: seq<Byte>): (r: Option<(seq<Byte>, seq<Byte>)>)
    ensures r.Some? ==> |r.value.1| <= |s|
  {
    if |s| < n then None else Some((s[..n], s[n..]))
  }

  /** What the decoder takes from the front, and the rest; None where it throws. */
  function ReadOne(k: Kind, s: seq<Byte>): (r: Option<(Field, seq<Byte>)>)
    ensures r.Some? ==> |r.value.1| <= |s|
    ensures r.Some? && k.KStr8? ==> |r.value.1| < |s|
    decreases k
  {
    match k
    case KU8 => if |s| < 1 then None else Some((U8(s[0]), s[1..]))
    case KU16 => if |s| < 2 then None else Some((U16(ReadU16(s)), s[2..]))
    case KU32 => if |s| < 4 then None else Some((U32(ReadU32(s)), s[4..]))
    case KU64 => if |s| < 8 then None else Some((U64(ReadU64(s)), s[8..]))
    case KStr8 =>
      if |s| < 1 then None
      else
        var r :- Counted(s[0] as int, s[1..]);
        Some((Str8(r.0), r.1))
    case KStr16 =>
      if |s| < 2 then None
      else
        var r :- Counted(ReadU16(s), s[2..]);
        Some((Str16(r.0), r.1))
    case KBlob(cap) =>
      if |s| < 4 || ReadU32(s) > cap then None
      else
        var r :- Counted(ReadU32(s), s[4..]);
        Some((Blob(r.0), r.1))
    case KRaw(n) => if |s| < n then None else Some((Raw(s[..n]), s[n..]))
    case KRest => Some((Raw(s), []))
    case KOpt(need, kind, default) => if |s| >= need then ReadOne(kind, s) else Some((default, s))
  }

  function ReadAll(ks: seq<Kind>, s: seq<Byte>): (r: Option<(seq<Field>, seq<Byte>)>)
    ensures r.Some? ==> |r.value.0| == |ks| && |r.value.1| <= |s|
    ensures r.Some? && ks != [] && ks[0].KStr8? ==> |r.value.1| < |s|
    decreases |ks|
  {
    if ks == [] then Some(([], s))
    else
      var first :- ReadOne(ks[0], s);
      var rest :- ReadAll(ks[1..], first.1);
      Some(([first.0] + rest.0, rest.1))
  }

  class Decoder {
    const data: seq<Byte>
    var p: nat

    ghost predicate Valid()
      reads this
    {
      p <= |data|
    }

    ghost function Ahead(): seq<Byte>
      requires Valid()
      reads this
    {
      data[p..]
    }

    constructor (data: seq<Byte>)
      ensures Valid() && this.data == data && Ahead() == data
    {
      this.data := data;
      p := 0;
    }

    method Ok(need: nat) returns (ok: bool)
      requires Valid()
      ensures ok <==> |Ahead()| >= need
    {
      ok := p <= |data| && need <= |data| - p;
    }

    method TakeU8() returns (v: Option<Byte>)
      requires Valid()
      modifies this`p
      ensures Valid()
      ensures v == if |old(Ahead())| < 1 then None else Some(old(Ahead())[0])
      ensures v.Some? ==> Ahead() == old(Ahead())[1..]
    {
      if |data| - p < 1 { return None; }
      v := Some(data[p]);
      p := p + 1;
    }

    /** u16, u32be and u64be: the bytes shifted in one after the other. */
    method TakeBe(n: nat) returns (v: Option<nat>)
      requires Valid()
      modifies this`p
      ensures Valid()
      ensures v == if |old(Ahead())| < n then None else Some(Number(old(Ahead())[..n]))
      ensures v.Some? ==> Ahead() == old(Ahead())[n..]
    {
      if |data| - p < n { return None; }
      var acc := 0;
      var i := 0;
      while i < n
        invariant 0 <= i <= n
        invariant acc == Number(data[p..][..i])
      {
        assert data[p..][..i + 1][..i] == data[p..][..i];
        acc := acc * 0x100 + data[p + i] as int;
        i := i + 1;
      }
      v := Some(acc);
      p := p + n;
    }

    method TakeBytes(n: nat) returns (v: Option<seq<Byte>>)
      requires Valid()
      modifies this`p
      ensures Valid()
      ensures v == if |old(Ahead())| < n then None else Some(old(Ahead())[..n])
      ensures v.Some? ==> Ahead() == old(Ahead())[n..]
    {
      if |data| - p < n { return None; }
      assert data[p..][..n] == data[p..p + n];
      v := Some(data[p..p + n]);
      p := p + n;
    }

    method TakeStr8() returns (v: Option<seq<Byte>>)
      requires Valid()
      modifies this`p
      ensures Valid()
      ensures var read := ReadOne(KStr8, old(Ahead()));
              v.Some? == read.Some? && (v.Some? ==> Str8(v.value) == read.value.0 && Ahead() == read.value.1)
    {
      var n := TakeU8();
      if n.None? { return None; }
      v := TakeBytes(n.value as int);
    }

    method TakeStr16() returns (v: Option<seq<Byte>>)
      requires Valid()
      modifies this`p
      ensures Valid()
      ensures var read := ReadOne(KStr16, old(Ahead()));
              v.Some? == read.Some? && (v.Some? ==> Str16(v.value) == read.value.0 && Ahead() == read.value.1)
    {
      NumberIsRead(Ahead());
      var n := TakeBe(2);
      if n.None? { return None; }
      v := TakeBytes(n.value);
    }

    /** A u32 length, refused above the cap, and that many bytes. */
    method TakeBlob(cap: nat) returns (v: Option<seq<Byte>>)
      requires Valid()
      modifies this`p
      ensures Valid()
      ensures var read := ReadOne(KBlob(cap), old(Ahead()));
              v.Some? == read.Some? && (v.Some? ==> Blob(v.value) == read.value.0 && Ahead() == read.value.1)
    {
      NumberIsRead(Ahead());
      var n := TakeBe(4);
      if n.None? || n.value > cap { return None; }
      v := TakeBytes(n.value);
    }

    /** One field; the position is unspecified after a throw. */
    method Take(k: Kind) returns (r: Option<Field>)
      requires Valid()
      modifies this`p
      ensures Valid()
      ensures var read := ReadOne(k, old(Ahead()));
              && r.Some? == read.Some?
              && (r.Some? ==> r.value == read.value.0 && Ahead() == read.value.1)
      decreases k
    {
      ghost var s := Ahead();
      match k {
        case KU8 =>
          var v := TakeU8();
          if v.None? { return None; }
          r := Some(U8(v.value));
        case KU16 =>
          var v := TakeBe(2);
          if v.None? { return None; }
          NumberIsRead(s);
          r := Some(U16(v.value));
        case KU32 =>
          var v := TakeBe(4);
          if v.None? { return None; }
          NumberIsRead(s);
          r := Some(U32(v.value));
        case KU64 =>
          var v := TakeBe(8);
          if v.None? { return None; }
          NumberIsRead(s);
          r := Some(U64(v.value));
        case KStr8 =>
          var v := TakeStr8();
          if v.None? { return None; }
          r := Some(Str8(v.value));
        case KStr16 =>
          var v := TakeStr16();
          if v.None? { return None; }
          r := Some(Str16(v.value));
        case KBlob(cap) =>
          var v := TakeBlob(cap);
          if v.None? { return None; }
          r := Some(Blob(v.value));
        case KRaw(n) =>
          var v := TakeBytes(n);
          if v.None? { return None; }
          r := Some(Raw(v.value));
        case KRest =>
          var v := TakeBytes(|data| - p);
          r := Some(Raw(v.value));
        case KOpt(need, kind, default) =>
          var ok := Ok(need);
          if ok { r := Take(kind); } else { r := Some(default); }
      }
    }

    method TakeAll(ks: seq<Kind>) returns (r: Option<seq<Field>>)
      requires Valid()
      modifies this`p
      ensures Valid()
      ensures var read := ReadAll(ks, old(Ahead()));
              && r.Some? == read.Some?
              && (r.Some? ==> r.value == read.value.0 && Ahead() == read.value.1)
    {
      hide ReadOne, ReadAll;
      ghost var s := Ahead();
      var fs := [];
      var i := 0;
      NothingRead(ks, s);
      while i < |ks|
        invariant 0 <= i <= |ks| && Valid()
        invariant ReadSoFar(ks, s, i, fs, Ahead())
      {
        ReadStep(ks, s, i, fs, Ahead());
        var f := Take(ks[i]);
        if f.None? { return None; }
        fs := fs + [f.value];
        i := i + 1;
      }
      AllRead(ks, s, fs, Ahead());
      r := Some(fs);
    }
  }

  /** The number that bytes spell, the most significant first. */
  function Number(s: seq<Byte>): nat
    decreases |s|
  {
    if s == [] then 0 else Number(s[..|s| - 1]) * 0x100 + s[|s| - 1] as int
  }

  lemma NumberIsRead(s: seq<Byte>)
    ensures |s| >= 2 ==> Number(s[..2]) == ReadU16(s)
    ensures |s| >= 4 ==> Number(s[..4]) == ReadU32(s)
    ensures |s| >= 8 ==> Number(s[..8]) == ReadU64(s)
  {
    if |s| >= 2 { NumberOfTwo(s[..2]); }
    if |s| >= 4 { NumberOfFour(s[..4]); }
    if |s| >= 8 {
      NumberOfFour(s[..4]);
      NumberAfter(s[..4], s[4..8]);
      NumberOfFour(s[4..8]);
      assert s[..8] == s[..4] + s[4..8];
      assert s[..8][..4] == s[..4] && s[..8][4..8] == s[4..8];
    }
  }

  lemma NumberOfTwo(s: seq<Byte>)
    requires |s| == 2
    ensures Number(s) == s[0] as int * 0x100 + s[1] as int
  {
    assert s[..1][..0] == [];
    assert Number(s[..1]) == s[0] as int;
  }

  lemma NumberOfFour(s: seq<Byte>)
    requires |s| == 4
    ensures Number(s) == ReadU32(s)
  {
    NumberOfTwo(s[..2]);
    assert s[..3][..2] == s[..2];
    assert Number(s[..3]) == Number(s[..2]) * 0x100 + s[2] as int;
  }

  lemma NumberAfter(a: seq<Byte>, b: seq<Byte>)
    requires |b| == 4
    ensures Number(a + b) == Number(a) * 0x1_0000_0000 + Number(b)
  {
    NumberOfFour(b);
    var s := a + b;
    var n := |a|;
    assert s[..n + 3][..n + 2] == s[..n + 2] && s[..n + 2][..n + 1] == s[..n + 1] && s[..n + 1][..n] == s[..n] == a;
    assert s[..n + 4] == s;
    assert Number(s[..n + 1]) == Number(a) * 0x100 + b[0] as int;
    assert Number(s[..n + 2]) == Number(s[..n + 1]) * 0x100 + b[1] as int;
    assert Number(s[..n + 3]) == Number(s[..n + 2]) * 0x100 + b[2] as int;
    assert Number(s) == Number(s[..n + 3]) * 0x100 + b[3] as int;
  }

  ghost predicate ReadSoFar(ks: seq<Kind>, s: seq<Byte>, i: nat, fs: seq<Field>, ahead: seq<Byte>)
    requires i <= |ks|
  {
    && |fs| == i
    && ReadAll(ks, s).Some? == ReadAll(ks[i..], ahead).Some?
    && (ReadAll(ks, s).Some? ==>
          ReadAll(ks, s).value == (fs + ReadAll(ks[i..], ahead).value.0, ReadAll(ks[i..], ahead).value.1))
  }

  lemma NothingRead(ks: seq<Kind>, s: seq<Byte>)
    ensures ReadSoFar(ks, s, 0, [], s)
  {
    hide ReadAll;
    assert ks[0..] == ks;
    if ReadAll(ks, s).Some? { assert [] + ReadAll(ks, s).value.0 == ReadAll(ks, s).value.0; }
  }

  lemma ReadStep(ks: seq<Kind>, s: seq<Byte>, i: nat, fs: seq<Field>, ahead: seq<Byte>)
    requires i < |ks| && ReadSoFar(ks, s, i, fs, ahead)
    ensures ReadOne(ks[i], ahead).None? ==> ReadAll(ks, s).None?
    ensures ReadOne(ks[i], ahead).Some? ==>
              ReadSoFar(ks, s, i + 1, fs + [ReadOne(ks[i], ahead).value.0], ReadOne(ks[i], ahead).value.1)
  {
    UnfoldRead(ks[i..], ahead);
    hide ReadOne, ReadAll;
    assert ks[i..][1..] == ks[i + 1..];
    var one := ReadOne(ks[i], ahead);
    if one.Some? && ReadAll(ks[i + 1..], one.value.1).Some? {
      var rest := ReadAll(ks[i + 1..], one.value.1).value.0;
      assert fs + ([one.value.0] + rest) == fs + [one.value.0] + rest;
    }
  }

  lemma UnfoldRead(ks: seq<Kind>, s: seq<Byte>)
    requires ks != []
    ensures var one := ReadOne(ks[0], s);
            && (one.None? ==> ReadAll(ks, s).None?)
            && (one.Some? ==>
                  var rest := ReadAll(ks[1..], one.value.1);
                  && ReadAll(ks, s).Some? == rest.Some?
                  && (rest.Some? ==> ReadAll(ks, s).value == ([one.value.0] + rest.value.0, rest.value.1)))
  {
    hide ReadOne;
  }

  lemma AllRead(ks: seq<Kind>, s: seq<Byte>, fs: seq<Field>, ahead: seq<Byte>)
    requires ReadSoFar(ks, s, |ks|, fs, ahead)
    ensures ReadAll(ks, s) == Some((fs, ahead))
  {
    assert ks[|ks|..] == [];
    assert fs + [] == fs;
  }

  // ── Round trip ────────────────────────────────────────────────────────────────

  /** k reads f back. */
  predicate Fits(f: Field, k: Kind)
    decreases k
  {
    match k
    case KU8 => f.U8?
    case KU16 => f.U16?
    case KU32 => f.U32?
    case KU64 => f.U64?
    case KStr8 => f.Str8?
    case KStr16 => f.Str16?
    case KBlob(cap) => f.Blob? && |f.s| <= cap && cap < 0x1_0000_0000
    case KRaw(n) => f.Raw? && |f.s| == n
    case KRest => f.Raw?
    case KOpt(need, kind, _) => Fits(f, kind) && !TakesRest(kind) && MinSize(kind) >= need
  }

  predicate TakesRest(k: Kind) {
    k.KRest? || (k.KOpt? && TakesRest(k.kind))
  }

  /** The fewest bytes that a field of this kind is written in. */
  function MinSize(k: Kind): nat {
    match k
    case KU8 => 1
    case KU16 => 2
    case KU32 => 4
    case KU64 => 8
    case KStr8 => 1
    case KStr16 => 2
    case KBlob(_) => 4
    case KRaw(n) => n
    case KRest => 0
    case KOpt(_, kind, _) => MinSize(kind)
  }

  lemma {:induction false} EncSize(f: Field, k: Kind)
    requires Fits(f, k) && Enc(f).Some?
    ensures |Enc(f).value| >= MinSize(k)
    decreases k
  {
    if k.KOpt? { EncSize(f, k.kind); }
  }

  lemma ReadBackFixed(f: Field, k: Kind, tail: seq<Byte>)
    requires Fits(f, k) && Enc(f).Some? && (k.KU8? || k.KU16? || k.KU32? || k.KU64? || k.KRaw?)
    ensures ReadOne(k, Enc(f).value + tail) == Some((f, tail))
  {
    match k {
      case KU16 => Be16RoundTrip(f.w, tail);
      case KU32 => Be32RoundTrip(f.d, tail);
      case KU64 => Be64RoundTrip(f.q, tail);
      case _ =>
    }
  }

  lemma ReadBackStr8(s: seq<Byte>, tail: seq<Byte>)
    requires |s| <= 0xFF
    ensures ReadOne(KStr8, [|s|] + s + tail) == Some((Str8(s), tail))
  {
    PrefixParts([|s|], s, tail);
  }

  lemma PrefixParts(head: seq<Byte>, s: seq<Byte>, tail: seq<Byte>)
    ensures var all := head + s + tail;
            && all == head + (s + tail) && all[|head|..] == s + tail
            && Counted(|s|, all[|head|..]) == Some((s, tail))
  {
    var all := head + s + tail;
    assert all[|head|..] == s + tail;
    assert (s + tail)[..|s|] == s && (s + tail)[|s|..] == tail;
  }

  lemma ReadBackStr16(s: seq<Byte>, tail: seq<Byte>)
    requires |s| <= 0xFFFF
    ensures ReadOne(KStr16, Be16(|s|) + s + tail) == Some((Str16(s), tail))
  {
    var head := Be16(|s|);
    Be16RoundTrip(|s|, s + tail);
    assert |head| == 2;
    hide ReadU16, Be16;
    PrefixParts(head, s, tail);
  }

  lemma ReadBackBlob(s: seq<Byte>, cap: nat, tail: seq<Byte>)
    requires |s| <= cap < 0x1_0000_0000
    ensures ReadOne(KBlob(cap), Be32(|s| % 0x1_0000_0000) + s + tail) == Some((Blob(s), tail))
  {
    assert |s| % 0x1_0000_0000 == |s|;
    var head := Be32(|s|);
    Be32RoundTrip(|s|, s + tail);
    assert |head| == 4;
    hide ReadU32, Be32;
    PrefixParts(head, s, tail);
  }

  /** One field is read back whatever follows it, or with nothing after it if it takes the rest. */
  lemma {:induction false} ReadBack(f: Field, k: Kind, tail: seq<Byte>)
    requires Fits(f, k) && Enc(f).Some? && (TakesRest(k) ==> tail == [])
    ensures ReadOne(k, Enc(f).value + tail) == Some((f, tail))
    decreases k
  {
    match k {
      case KStr8 => ReadBackStr8(f.s, tail);
      case KStr16 => ReadBackStr16(f.s, tail);
      case KBlob(cap) => ReadBackBlob(f.s, cap, tail);
      case KRest => assert f.s + [] == f.s;
      case KOpt(need, kind, _) =>
        EncSize(f, kind);
        ReadBack(f, kind, tail);
      case _ => ReadBackFixed(f, k, tail);
    }
  }

  /** fs are what ks read; only the last may take the rest. */
  predicate FitAll(fs: seq<Field>, ks: seq<Kind>) {
    |fs| == |ks| && forall i :: 0 <= i < |fs| ==> Fits(fs[i], ks[i])
  }

  predicate OnlyLastTakesRest(ks: seq<Kind>) {
    forall i :: 0 <= i < |ks| - 1 ==> !TakesRest(ks[i])
  }

  lemma FitTail(fs: seq<Field>, ks: seq<Kind>)
    requires FitAll(fs, ks) && OnlyLastTakesRest(ks) && fs != []
    ensures FitAll(fs[1..], ks[1..]) && OnlyLastTakesRest(ks[1..])
    ensures forall i :: 0 <= i < |ks| - 1 ==> ks[1..][i] == ks[i + 1]
  {
    hide Fits, TakesRest;
  }

  /** The first field is read, and the rest is left. */
  lemma FirstBack(fs: seq<Field>, ks: seq<Kind>, tail: seq<Byte>)
    requires FitAll(fs, ks) && OnlyLastTakesRest(ks) && EncAll(fs).Some? && fs != []
    requires tail != [] ==> forall i :: 0 <= i < |ks| ==> !TakesRest(ks[i])
    ensures EncAll(fs[1..]).Some?
    ensures ReadOne(ks[0], EncAll(fs).value + tail) == Some((fs[0], EncAll(fs[1..]).value + tail))
  {
    hide Enc, EncAll, ReadOne, Fits, TakesRest;
    EncStep(fs);
    if TakesRest(ks[0]) { EncNothing(fs[1..]); }
    JoinThree(Enc(fs[0]).value, EncAll(fs[1..]).value, tail);
    ReadBack(fs[0], ks[0], EncAll(fs[1..]).value + tail);
  }

  lemma {:induction false} ReadAllBack(fs: seq<Field>, ks: seq<Kind>, tail: seq<Byte>)
    requires FitAll(fs, ks) && OnlyLastTakesRest(ks) && EncAll(fs).Some?
    requires tail != [] ==> forall i :: 0 <= i < |ks| ==> !TakesRest(ks[i])
    ensures ReadAll(ks, EncAll(fs).value + tail) == Some((fs, tail))
    decreases |fs|
  {
    hide *;
    FitLength(fs, ks);
    if fs != [] {
      FirstBack(fs, ks, tail);
      FitTail(fs, ks);
      ReadAllBack(fs[1..], ks[1..], tail);
      UnfoldRead(ks, EncAll(fs).value + tail);
      assert [fs[0]] + fs[1..] == fs;
    } else {
      NothingBack(ks, tail);
    }
  }

  lemma FitLength(fs: seq<Field>, ks: seq<Kind>)
    requires FitAll(fs, ks)
    ensures |fs| == |ks|
  {
  }

  lemma NothingBack(ks: seq<Kind>, tail: seq<Byte>)
    requires ks == []
    ensures EncAll([]) == Some([]) && ReadAll(ks, [] + tail) == Some(([], tail))
  {
    assert [] + tail == tail;
  }

  lemma EncNothing(fs: seq<Field>)
    ensures fs == [] ==> EncAll(fs) == Some([])
  {
  }

  lemma {:induction false} EncSum(a: seq<Field>, b: seq<Field>)
    ensures EncAll(a + b).Some? == (EncAll(a).Some? && EncAll(b).Some?)
    ensures EncAll(a + b).Some? ==> EncAll(a + b).value == EncAll(a).value + EncAll(b).value
    decreases |a|
  {
    hide Enc;
    if a == [] {
      assert a + b == b;
    } else {
      assert (a + b)[1..] == a[1..] + b;
      EncSum(a[1..], b);
      if EncAll(a + b).Some? { JoinThree(Enc(a[0]).value, EncAll(a[1..]).value, EncAll(b).value); }
    }
  }

  /** A field is no longer than the whole. */
  lemma {:induction false} FieldIsPart(fs: seq<Field>, i: nat)
    requires i < |fs| && EncAll(fs).Some?
    ensures Enc(fs[i]).Some? && |Enc(fs[i]).value| <= |EncAll(fs).value|
    decreases |fs|
  {
    hide Enc;
    EncStep(fs);
    if i > 0 { FieldIsPart(fs[1..], i - 1); }
  }

  // ── Senders that stop early ───────────────────────────────────────────────────

  predicate Optional(k: Kind) {
    k.KOpt? && k.need > 0
  }

  function DefaultOf(k: Kind): Field {
    if k.KOpt? then k.default else Raw([])
  }

  function Defaults(ks: seq<Kind>): (r: seq<Field>)
    ensures |r| == |ks| && forall i :: 0 <= i < |ks| ==> r[i] == DefaultOf(ks[i])
  {
    seq(|ks|, i requires 0 <= i < |ks| => DefaultOf(ks[i]))
  }

  lemma {:induction false} NothingLeft(ks: seq<Kind>)
    requires forall i :: 0 <= i < |ks| ==> Optional(ks[i])
    ensures ReadAll(ks, []) == Some((Defaults(ks), []))
    decreases |ks|
  {
    if ks != [] {
      NothingLeft(ks[1..]);
      assert Optional(ks[0]);
      assert ReadOne(ks[0], []) == Some((DefaultOf(ks[0]), []));
      UnfoldRead(ks, []);
      hide ReadOne, ReadAll;
      assert [DefaultOf(ks[0])] + Defaults(ks[1..]) == Defaults(ks);
    }
  }

  lemma {:induction false} ReadSplit(a: seq<Kind>, b: seq<Kind>, s: seq<Byte>)
    requires ReadAll(a, s).Some?
    ensures var rest := ReadAll(b, ReadAll(a, s).value.1);
            && ReadAll(a + b, s).Some? == rest.Some?
            && (rest.Some? ==> ReadAll(a + b, s).value == (ReadAll(a, s).value.0 + rest.value.0, rest.value.1))
    decreases |a|
  {
    hide ReadOne;
    if a == [] {
      assert a + b == b;
      if ReadAll(b, s).Some? { assert [] + ReadAll(b, s).value.0 == ReadAll(b, s).value.0; }
    } else {
      assert (a + b)[1..] == a[1..] + b;
      UnfoldRead(a, s);
      UnfoldRead(a + b, s);
      var one := ReadOne(a[0], s);
      ReadSplit(a[1..], b, one.value.1);
      hide ReadAll;
      var (x, y) := (ReadAll(a[1..], one.value.1), ReadAll(a + b, s));
      var z := ReadAll(b, x.value.1);
      if z.Some? { assert [one.value.0] + (x.value.0 + z.value.0) == [one.value.0] + x.value.0 + z.value.0; }
    }
  }

  /** The first n fields of a message, written by a sender that knows no more: the decoder gives them
      back, and its default for each field that is missing. */
  lemma ReadsOldSender(fs: seq<Field>, ks: seq<Kind>, n: nat)
    requires n <= |ks| && n == |fs| && FitAll(fs, ks[..n]) && EncAll(fs).Some?
    requires forall i :: 0 <= i < n ==> !TakesRest(ks[i])
    requires forall i :: n <= i < |ks| ==> Optional(ks[i])
    ensures ReadAll(ks, EncAll(fs).value) == Some((fs + Defaults(ks[n..]), []))
  {
    hide EncAll, ReadAll, Fits, TakesRest;
    assert ks == ks[..n] + ks[n..];
    assert EncAll(fs).value + [] == EncAll(fs).value;
    ReadAllBack(fs, ks[..n], []);
    NothingLeft(ks[n..]);
    ReadSplit(ks[..n], ks[n..], EncAll(fs).value);
  }

  // ── Lists without a count ─────────────────────────────────────────────────────

  /** while (d.ok(1)): items to the end; None also where more than max follow. */
  function ReadItems(ks: seq<Kind>, s: seq<Byte>, max: Option<nat>): (r: Option<seq<seq<Field>>>)
    requires ks != [] && ks[0].KStr8?
    ensures r.Some? ==> forall i :: 0 <= i < |r.value| ==> |r.value[i]| == |ks|
    decreases |s|
  {
    if s == [] then Some([])
    else if max == Some(0) then None
    else
      var item :- ReadAll(ks, s);
      var rest :- ReadItems(ks, item.1, if max.Some? then Some(max.value - 1) else None);
      Some([item.0] + rest)
  }

  function EncItems(items: seq<seq<Field>>): Option<seq<Byte>> {
    if items == [] then Some([])
    else
      var first :- EncAll(items[0]);
      var rest :- EncItems(items[1..]);
      Some(first + rest)
  }

  predicate ItemsFit(items: seq<seq<Field>>, ks: seq<Kind>) {
    forall i :: 0 <= i < |items| ==> FitAll(items[i], ks)
  }

  /** The items come back, unless there are more than the decoder takes. */
  lemma {:induction false} ReadItemsBack(items: seq<seq<Field>>, ks: seq<Kind>, max: Option<nat>)
    requires ks != [] && ks[0].KStr8? && (forall i :: 0 <= i < |ks| ==> !TakesRest(ks[i]))
    requires ItemsFit(items, ks) && EncItems(items).Some?
    ensures ReadItems(ks, EncItems(items).value, max)
         == if max.Some? && |items| > max.value then None else Some(items)
    decreases |items|
  {
    hide Fits, Enc, ReadOne, TakesRest;
    if items != [] {
      var (first, rest) := (EncAll(items[0]).value, EncItems(items[1..]).value);
      ReadAllBack(items[0], ks, rest);
      FirstByte(items[0], ks);
      hide EncAll, ReadAll;
      ReadItemsBack(items[1..], ks, if max.Some? && max.value > 0 then Some(max.value - 1) else None);
      assert [items[0]] + items[1..] == items;
    }
  }

  lemma FirstByte(fs: seq<Field>, ks: seq<Kind>)
    requires ks != [] && ks[0].KStr8? && FitAll(fs, ks) && EncAll(fs).Some?
    ensures EncAll(fs).value != []
  {
    EncStep(fs);
    assert Fits(fs[0], ks[0]);
  }
}
