/** BMP to PNG (bs-image-encode.h), and a PNG decoder written from the formats' documents to judge it. */
module ImageEncode {
  import opened Bytes
  import opened Checksums

  datatype Pixel = Pixel(r: Byte, g: Byte, b: Byte)

  /** Rows from the top, pixels from the left. */
  datatype Image = Image(width: nat, height: nat, rows: seq<seq<Pixel>>)

  // ── A PNG decoder: RFC 2083, RFC 1950, RFC 1951 ───────────────────────────────

  datatype Chunk = Chunk(kind: seq<Byte>, data: seq<Byte>)

  /** The largest chunk that RFC 2083, section 3.2 allows, and the largest that its field can say. */
  const CHUNK_LIMIT: nat := 0x7FFF_FFFF
  const FIELD_LIMIT: nat := 0xFFFF_FFFF

  /** Section 3.2: length, type, data, CRC of type and data. */
  function ReadChunk(s: seq<Byte>, limit: nat): (r: Option<(Chunk, seq<Byte>)>)
    ensures r.Some? ==> |r.value.1| < |s|
  {
    if |s| < 12 then None
    else
      var n := ReadU32(s);
      if n > limit || |s| < 12 + n then None
      else if ReadU32(s[8 + n..]) != Crc32(s[4..8 + n]) then None
      else Some((Chunk(s[4..8], s[8..8 + n]), s[12 + n..]))
  }

  function ReadChunks(s: seq<Byte>, limit: nat): Option<seq<Chunk>>
    decreases |s|
  {
    if s == [] then Some([])
    else
      var first :- ReadChunk(s, limit);
      var rest :- ReadChunks(first.1, limit);
      Some([first.0] + rest)
  }

  /** RFC 1951, sections 3.2.3 and 3.2.4, for streams of stored blocks: the data up to the end of the
      first final block, and what follows. */
  function Inflate(s: seq<Byte>): Option<(seq<Byte>, seq<Byte>)>
    decreases |s|
  {
    if |s| < 5 || s[0] as int / 2 % 4 != 0 then None
    else
      var len := s[1] as int + 0x100 * s[2] as int;
      var complement := s[3] as int + 0x100 * s[4] as int;
      if complement != 0xFFFF - len || |s| < 5 + len then None
      else if s[0] as int % 2 == 1 then Some((s[5..5 + len], s[5 + len..]))
      else
        var rest :- Inflate(s[5 + len..]);
        Some((s[5..5 + len] + rest.0, rest.1))
  }

  /** RFC 1950, section 2.2. */
  function Unzlib(s: seq<Byte>): Option<seq<Byte>> {
    if |s| < 2 || s[0] as int % 16 != 8 || s[0] as int / 16 > 7 || (0x100 * s[0] as int + s[1] as int) % 31 != 0
       || s[1] as int / 32 % 2 == 1 then None
    else
      var inflated :- Inflate(s[2..]);
      if |inflated.1| != 4 || ReadU32(inflated.1) != Adler32(inflated.0) then None
      else Some(inflated.0)
  }

  function Pixels(s: seq<Byte>): seq<Pixel> {
    if |s| < 3 then [] else [Pixel(s[0], s[1], s[2])] + Pixels(s[3..])
  }

  /** RFC 2083, sections 2.3 and 6, for rows without a filter. */
  function Unfilter(s: seq<Byte>, width: nat, height: nat): Option<seq<seq<Pixel>>>
    decreases height
  {
    if height == 0 then (if s == [] then Some([]) else None)
    else if |s| < 1 + 3 * width || s[0] != 0 then None
    else
      var rest :- Unfilter(s[1 + 3 * width..], width, height - 1);
      Some([Pixels(s[1..1 + 3 * width])] + rest)
  }

  function AllData(chunks: seq<Chunk>): Option<seq<Byte>> {
    if chunks == [] then Some([])
    else if chunks[0].kind != [0x49, 0x44, 0x41, 0x54] then None
    else
      var rest :- AllData(chunks[1..]);
      Some(chunks[0].data + rest)
  }

  /** RFC 2083, sections 3.1 and 4.1, for 8-bit RGB without interlace: IHDR, IDAT chunks, IEND. */
  function DecodeChunks(chunks: seq<Chunk>): Option<Image> {
    if |chunks| < 3 || chunks[0].kind != [0x49, 0x48, 0x44, 0x52] || |chunks[0].data| != 13
       || chunks[|chunks| - 1] != Chunk([0x49, 0x45, 0x4E, 0x44], []) then None
    else
      var header := chunks[0].data;
      var (width, height) := (ReadU32(header), ReadU32(header[4..]));
      if !(0 < width <= 0x7FFF_FFFF) || !(0 < height <= 0x7FFF_FFFF) || header[8..] != [8, 2, 0, 0, 0] then None
      else
        var compressed :- AllData(chunks[1..|chunks| - 1]);
        var raw :- Unzlib(compressed);
        var rows :- Unfilter(raw, width, height);
        Some(Image(width, height, rows))
  }

  function DecodePng(s: seq<Byte>, limit: nat): Option<Image> {
    if |s| < 8 || s[..8] != [0x89, 0x50, 0x4E, 0x47, 0x0D, 0x0A, 0x1A, 0x0A] then None
    else
      var chunks :- ReadChunks(s[8..], limit);
      DecodeChunks(chunks)
  }

  // ── The BMP ───────────────────────────────────────────────────────────────────

  datatype Bmp = Bmp(offset: nat, width: nat, height: nat, topDown: bool)

  function ULe32(s: seq<Byte>, at: nat): (r: nat)
    requires at + 4 <= |s|
    ensures r < 0x1_0000_0000
  {
    s[at] as int + 0x100 * s[at + 1] as int + 0x1_0000 * s[at + 2] as int + 0x100_0000 * s[at + 3] as int
  }

  /** get_le32. */
  function Le32(s: seq<Byte>, at: nat): (r: int)
    requires at + 4 <= |s|
    ensures -0x8000_0000 <= r < 0x8000_0000
  {
    var u := ULe32(s, at);
    if u < 0x8000_0000 then u else u - 0x1_0000_0000
  }

  /** Bytes per row: three per pixel, padded to a multiple of four. */
  function Stride(width: nat): (r: nat)
    ensures 3 * width <= r < 3 * width + 4 && r % 4 == 0
  {
    (3 * width + 3) / 4 * 4
  }

  /** The headers that the encoder accepts: 24 bits, one plane, no side above 32768, all rows there. */
  function ParseBmp(bmp: seq<Byte>): (r: Option<Bmp>)
    ensures r.Some? ==> 0 < r.value.width <= 32768 && 0 < r.value.height <= 32768
    ensures r.Some? ==> r.value.offset + Stride(r.value.width) * r.value.height <= |bmp|
  {
    if |bmp| < 54 || bmp[0] != 0x42 || bmp[1] != 0x4D || Le32(bmp, 14) != 40 then None
    else if bmp[26] as int + 0x100 * bmp[27] as int != 1 || bmp[28] as int + 0x100 * bmp[29] as int != 24 then None
    else
      var (width, rawHeight) := (Le32(bmp, 18), Le32(bmp, 22));
      var height := if rawHeight < 0 then -rawHeight else rawHeight;
      if width <= 0 || height <= 0 || width > 32768 || height > 32768 then None
      else if ULe32(bmp, 10) + Stride(width) * height > |bmp| then None
      else Some(Bmp(ULe32(bmp, 10), width, height, rawHeight < 0))
  }

  /** The file row that shows image row y. */
  function FileRow(p: Bmp, y: nat): (r: nat)
    requires y < p.height
    ensures r < p.height
  {
    if p.topDown then y else p.height - 1 - y
  }

  ghost predicate Fits(bmp: seq<Byte>, p: Bmp) {
    p.offset + Stride(p.width) * p.height <= |bmp|
  }

  lemma PixelInside(bmp: seq<Byte>, p: Bmp, x: nat, row: nat)
    requires Fits(bmp, p) && x < p.width && row < p.height
    ensures 0 <= p.offset + row * Stride(p.width) + 3 * x && p.offset + row * Stride(p.width) + 3 * x + 3 <= |bmp|
  {
    var s := Stride(p.width);
    MulNonNegative(row, s);
    MulNonNegative(p.height - 1 - row, s);
    assert s * p.height == row * s + s + (p.height - 1 - row) * s;
  }

  /** Blue, green, red. */
  function BmpPixel(bmp: seq<Byte>, p: Bmp, x: nat, y: nat): Pixel
    requires Fits(bmp, p) && x < p.width && y < p.height
  {
    PixelInside(bmp, p, x, FileRow(p, y));
    var at := p.offset + FileRow(p, y) * Stride(p.width) + 3 * x;
    Pixel(bmp[at + 2], bmp[at + 1], bmp[at])
  }

  function BmpRow(bmp: seq<Byte>, p: Bmp, y: nat): (r: seq<Pixel>)
    requires Fits(bmp, p) && y < p.height
    ensures |r| == p.width && forall x :: 0 <= x < p.width ==> r[x] == BmpPixel(bmp, p, x, y)
  {
    seq(p.width, x requires 0 <= x < p.width => BmpPixel(bmp, p, x, y))
  }

  function BmpRows(bmp: seq<Byte>, p: Bmp): (r: seq<seq<Pixel>>)
    requires Fits(bmp, p)
    ensures |r| == p.height && forall y :: 0 <= y < p.height ==> r[y] == BmpRow(bmp, p, y)
  {
    seq(p.height, y requires 0 <= y < p.height => BmpRow(bmp, p, y))
  }

  function BmpImage(bmp: seq<Byte>, p: Bmp): Image
    requires Fits(bmp, p)
  {
    Image(p.width, p.height, BmpRows(bmp, p))
  }

  // ── BMP files as they are written ─────────────────────────────────────────────

  /** Four bytes, the low one first. */
  function LeBytes(v: nat): (s: seq<Byte>)
    requires v < 0x1_0000_0000
    ensures |s| == 4
  {
    [v % 0x100, v / 0x100 % 0x100, v / 0x1_0000 % 0x100, v / 0x100_0000]
  }

  function BgrBytes(row: seq<Pixel>): (s: seq<Byte>)
    ensures |s| == 3 * |row|
  {
    if row == [] then [] else [row[0].b, row[0].g, row[0].r] + BgrBytes(row[1..])
  }

  /** Rows in the order of the file, each with the bytes that fill it up. */
  function FileBytes(rows: seq<seq<Pixel>>, pads: seq<seq<Byte>>): seq<Byte>
    requires |rows| == |pads|
  {
    if rows == [] then [] else BgrBytes(rows[0]) + pads[0] + FileBytes(rows[1..], pads[1..])
  }

  /** The rows as they follow in the file: from the top, or from the bottom. */
  function FileOrder<T>(rows: seq<T>, topDown: bool): (r: seq<T>)
    ensures |r| == |rows|
    ensures forall i :: 0 <= i < |r| ==> r[i] == rows[if topDown then i else |rows| - 1 - i]
  {
    if topDown then rows else seq(|rows|, i requires 0 <= i < |rows| => rows[|rows| - 1 - i])
  }

  predicate WellFormed(image: Image) {
    && 0 < image.width <= 32768 && 0 < image.height <= 32768 && |image.rows| == image.height
    && forall y :: 0 <= y < image.height ==> |image.rows[y]| == image.width
  }

  /** The bytes that fill a row up to a multiple of four. */
  function Padding(width: nat): nat { (4 - 3 * width % 4) % 4 }

  predicate PadsFit(pads: seq<seq<Byte>>, width: nat) {
    forall i :: 0 <= i < |pads| ==> |pads[i]| == Padding(width)
  }

  /** What the headers say: 24 bits, one plane, a negative height for rows from the top. */
  predicate Describes(bmp: seq<Byte>, offset: nat, width: nat, height: nat, topDown: bool)
    requires offset < 0x1_0000_0000 && width < 0x1_0000_0000 && 0 < height < 0x8000_0000
  {
    && |bmp| >= 54 && bmp[..2] == [0x42, 0x4D] && bmp[10..14] == LeBytes(offset) && bmp[14..18] == [40, 0, 0, 0]
    && bmp[18..22] == LeBytes(width) && bmp[22..26] == LeBytes(if topDown then 0x1_0000_0000 - height else height)
    && bmp[26..30] == [1, 0, 24, 0]
  }

  /** The file shows the image: its headers describe it, and the rows lie at the offset, in the order that the
      headers say. Nothing else in the file matters. */
  predicate Shows(bmp: seq<Byte>, image: Image, offset: nat, topDown: bool, pads: seq<seq<Byte>>) {
    && offset < 0x1_0000_0000 && WellFormed(image) && |pads| == image.height && PadsFit(pads, image.width)
    && Describes(bmp, offset, image.width, image.height, topDown)
    && var rows := FileBytes(FileOrder(image.rows, topDown), pads);
       offset + |rows| <= |bmp| && bmp[offset..offset + |rows|] == rows
  }

  /** The headers: any size and reserved fields, any further fields of the info header. */
  function BmpHeader(offset: nat, width: nat, height: nat, topDown: bool, reserved: seq<Byte>, info: seq<Byte>): (s: seq<Byte>)
    requires offset < 0x1_0000_0000 && width < 0x1_0000_0000 && 0 < height < 0x8000_0000 && |reserved| == 8 && |info| == 24
    ensures |s| == 54
  {
    [0x42, 0x4D] + reserved + LeBytes(offset) + [40, 0, 0, 0] + LeBytes(width)
    + LeBytes(if topDown then 0x1_0000_0000 - height else height) + [1, 0, 24, 0] + info
  }

  /** A BMP file: any gap before the rows, and anything behind them. */
  function WriteBmp(image: Image, topDown: bool, pads: seq<seq<Byte>>, reserved: seq<Byte>, info: seq<Byte>,
                    gap: seq<Byte>, tail: seq<Byte>): seq<Byte>
    requires WellFormed(image) && |pads| == image.height && PadsFit(pads, image.width)
    requires |reserved| == 8 && |info| == 24 && 54 + |gap| < 0x1_0000_0000
  {
    BmpHeader(54 + |gap|, image.width, image.height, topDown, reserved, info)
    + (gap + FileBytes(FileOrder(image.rows, topDown), pads) + tail)
  }

  lemma HeaderDescribes(offset: nat, width: nat, height: nat, topDown: bool, reserved: seq<Byte>, info: seq<Byte>, rest: seq<Byte>)
    requires offset < 0x1_0000_0000 && width < 0x1_0000_0000 && 0 < height < 0x8000_0000 && |reserved| == 8 && |info| == 24
    ensures Describes(BmpHeader(offset, width, height, topDown, reserved, info) + rest, offset, width, height, topDown)
  {
    hide LeBytes;
    HeaderPlaces([0x42, 0x4D], reserved, LeBytes(offset), [40, 0, 0, 0], LeBytes(width),
                 LeBytes(if topDown then 0x1_0000_0000 - height else height), [1, 0, 24, 0], info, rest);
  }

  lemma HeaderPlaces(a: seq<Byte>, b: seq<Byte>, c: seq<Byte>, d: seq<Byte>, e: seq<Byte>, f: seq<Byte>, g: seq<Byte>,
                     h: seq<Byte>, rest: seq<Byte>)
    requires |a| == 2 && |b| == 8 && |c| == |d| == |e| == |f| == |g| == 4 && |h| == 24
    ensures var s := a + b + c + d + e + f + g + h + rest;
            && |s| == 54 + |rest| && s[..2] == a && s[10..14] == c && s[14..18] == d && s[18..22] == e && s[22..26] == f
            && s[26..30] == g
  {
  }

  lemma WrittenShows(image: Image, topDown: bool, pads: seq<seq<Byte>>, reserved: seq<Byte>, info: seq<Byte>,
                     gap: seq<Byte>, tail: seq<Byte>)
    requires WellFormed(image) && |pads| == image.height && PadsFit(pads, image.width)
    requires |reserved| == 8 && |info| == 24 && 54 + |gap| < 0x1_0000_0000
    ensures Shows(WriteBmp(image, topDown, pads, reserved, info, gap, tail), image, 54 + |gap|, topDown, pads)
  {
    var rows := FileBytes(FileOrder(image.rows, topDown), pads);
    hide FileBytes, PadsFit, BmpHeader, Describes;
    HeaderDescribes(54 + |gap|, image.width, image.height, topDown, reserved, info, gap + rows + tail);
    MiddleLies(BmpHeader(54 + |gap|, image.width, image.height, topDown, reserved, info), gap, rows, tail);
  }

  lemma MiddleLies(head: seq<Byte>, gap: seq<Byte>, rows: seq<Byte>, tail: seq<Byte>)
    ensures var at := |head| + |gap|;
            at + |rows| <= |head + (gap + rows + tail)| && (head + (gap + rows + tail))[at..at + |rows|] == rows
  {
  }

  lemma LeReads(s: seq<Byte>, at: nat, v: nat)
    requires at + 4 <= |s| && v < 0x1_0000_0000
    ensures s[at..at + 4] == LeBytes(v) <==> ULe32(s, at) == v
  {
    LeWritten(s[at], s[at + 1], s[at + 2], s[at + 3], v);
    assert s[at..at + 4] == [s[at], s[at + 1], s[at + 2], s[at + 3]];
    hide LeBytes;
  }

  lemma LeWritten(a: Byte, b: Byte, c: Byte, d: Byte, v: nat)
    requires v < 0x1_0000_0000
    ensures [a, b, c, d] == LeBytes(v) <==> a as int + 0x100 * b as int + 0x1_0000 * c as int + 0x100_0000 * d as int == v
  {
    assert v / 0x1_0000 == v / 0x100 / 0x100 && v / 0x100_0000 == v / 0x100 / 0x100 / 0x100;
    if a as int + 0x100 * b as int + 0x1_0000 * c as int + 0x100_0000 * d as int == v {
      assert v == (b as int + 0x100 * c as int + 0x1_0000 * d as int) * 0x100 + a as int;
      DivMod(v, 0x100, b as int + 0x100 * c as int + 0x1_0000 * d as int, a);
      DivMod(v / 0x100, 0x100, c as int + 0x100 * d as int, b);
      DivMod(v / 0x100 / 0x100, 0x100, d, c);
    }
  }

  lemma StrideIs(width: nat)
    ensures Stride(width) == 3 * width + Padding(width)
  {
    var (q, r) := (3 * width / 4, 3 * width % 4);
    DivMod(3 * width + 3, 4, if r == 0 then q else q + 1, if r == 0 then 3 else r - 1);
  }

  lemma HeaderBytes(bmp: seq<Byte>)
    requires |bmp| >= 54
    ensures bmp[..2] == [0x42, 0x4D] <==> bmp[0] == 0x42 && bmp[1] == 0x4D
    ensures bmp[14..18] == [40, 0, 0, 0] <==> Le32(bmp, 14) == 40
    ensures bmp[26..30] == [1, 0, 24, 0] <==> bmp[26] as int + 0x100 * bmp[27] as int == 1 && bmp[28] as int + 0x100 * bmp[29] as int == 24
  {
    LeReads(bmp, 14, 40);
    assert LeBytes(40) == [40, 0, 0, 0];
    assert bmp[..2] == [bmp[0], bmp[1]] && bmp[26..30] == [bmp[26], bmp[27], bmp[28], bmp[29]];
    PairIs(bmp[26], bmp[27], 1);
    PairIs(bmp[28], bmp[29], 24);
  }

  lemma PairIs(a: Byte, b: Byte, v: Byte)
    ensures a as int + 0x100 * b as int == v as int <==> a == v && b == 0
  {
  }

  lemma HeightBytes(bmp: seq<Byte>, height: nat)
    requires |bmp| >= 54 && 0 < height < 0x8000_0000
    ensures bmp[22..26] == LeBytes(height) <==> Le32(bmp, 22) == height
    ensures bmp[22..26] == LeBytes(0x1_0000_0000 - height) <==> -Le32(bmp, 22) == height
  {
    LeReads(bmp, 22, height);
    LeReads(bmp, 22, 0x1_0000_0000 - height);
    hide LeBytes, ULe32;
  }

  /** Which files are accepted, over the bytes of their headers. */
  lemma ParsedIff(bmp: seq<Byte>, offset: nat, width: nat, height: nat, topDown: bool)
    requires offset < 0x1_0000_0000 && 0 < width <= 32768 && 0 < height <= 32768
    ensures ParseBmp(bmp) == Some(Bmp(offset, width, height, topDown)) <==>
              Describes(bmp, offset, width, height, topDown) && offset + (3 * width + Padding(width)) * height <= |bmp|
  {
    if |bmp| >= 54 {
      HeaderBytes(bmp);
      HeightBytes(bmp, height);
      LeReads(bmp, 10, offset);
      LeReads(bmp, 18, width);
      StrideIs(width);
      hide LeBytes, ULe32, Stride, Padding;
    }
  }

  // ── Reading what was written ──────────────────────────────────────────────────

  lemma {:induction false} BgrAt(row: seq<Pixel>, x: nat)
    requires x < |row|
    ensures var s := BgrBytes(row);
            s[3 * x] == row[x].b && s[3 * x + 1] == row[x].g && s[3 * x + 2] == row[x].r
  {
    if x > 0 { BgrAt(row[1..], x - 1); }
  }

  /** Where row k begins. */
  function RowStart(k: nat, stride: nat): nat {
    if k == 0 then 0 else RowStart(k - 1, stride) + stride
  }

  lemma {:induction false} RowStartIs(k: nat, stride: nat)
    ensures RowStart(k, stride) == k * stride
  {
    if k > 0 {
      RowStartIs(k - 1, stride);
      assert k * stride == (k - 1) * stride + stride;
    }
  }

  lemma {:induction false} RowStarts(k: nat, n: nat, stride: nat)
    requires k < n
    ensures RowStart(k, stride) + stride <= RowStart(n, stride)
  {
    if k < n - 1 { RowStarts(k, n - 1, stride); }
  }

  /** Every row and its padding make one stride. */
  predicate Filled(rows: seq<seq<Pixel>>, pads: seq<seq<Byte>>, stride: nat) {
    |rows| == |pads| && forall k :: 0 <= k < |rows| ==> |BgrBytes(rows[k]) + pads[k]| == stride
  }

  lemma FilledTail(rows: seq<seq<Pixel>>, pads: seq<seq<Byte>>, stride: nat)
    requires Filled(rows, pads, stride) && rows != []
    ensures |rows| == |pads| && Filled(rows[1..], pads[1..], stride) && |BgrBytes(rows[0]) + pads[0]| == stride
    ensures FileBytes(rows, pads) == BgrBytes(rows[0]) + pads[0] + FileBytes(rows[1..], pads[1..])
  {
    hide BgrBytes;
  }

  lemma {:induction false} FileSize(rows: seq<seq<Pixel>>, pads: seq<seq<Byte>>, stride: nat)
    requires Filled(rows, pads, stride)
    ensures |FileBytes(rows, pads)| == RowStart(|rows|, stride)
  {
    if rows != [] {
      FilledTail(rows, pads, stride);
      FileSize(rows[1..], pads[1..], stride);
    }
  }

  /** Row k lies where the rows before it end. */
  lemma {:induction false} FileRowAt(rows: seq<seq<Pixel>>, pads: seq<seq<Byte>>, stride: nat, k: nat)
    requires Filled(rows, pads, stride) && k < |rows|
    ensures RowStart(k, stride) + stride <= |FileBytes(rows, pads)|
    ensures FileBytes(rows, pads)[RowStart(k, stride)..RowStart(k, stride) + stride] == BgrBytes(rows[k]) + pads[k]
  {
    hide FileBytes, BgrBytes, RowStart, Filled;
    FilledTail(rows, pads, stride);
    RowStartStep(0, stride);
    if k > 0 {
      FileRowAt(rows[1..], pads[1..], stride, k - 1);
      RowStartStep(k - 1, stride);
      SliceBehind(BgrBytes(rows[0]) + pads[0], FileBytes(rows[1..], pads[1..]), RowStart(k - 1, stride), stride);
    }
  }

  lemma SliceBehind(first: seq<Byte>, t: seq<Byte>, at: nat, n: nat)
    requires at + n <= |t|
    ensures (first + t)[at + |first|..at + |first| + n] == t[at..at + n]
  {
  }

  lemma RowsFillStride(rows: seq<seq<Pixel>>, pads: seq<seq<Byte>>, width: nat)
    requires |rows| == |pads| && PadsFit(pads, width) && forall y :: 0 <= y < |rows| ==> |rows[y]| == width
    ensures Filled(rows, pads, Stride(width))
  {
    StrideIs(width);
    hide Padding, Stride;
  }

  lemma PixelAt(bmp: seq<Byte>, p: Bmp, x: nat, y: nat, k: nat, at: nat)
    requires Fits(bmp, p) && x < p.width && y < p.height && k == FileRow(p, y)
    requires at == p.offset + RowStart(k, Stride(p.width))
    ensures at + 3 * x + 3 <= |bmp| && BmpPixel(bmp, p, x, y) == Pixel(bmp[at + 3 * x + 2], bmp[at + 3 * x + 1], bmp[at + 3 * x])
  {
    hide RowStart, Stride;
    RowStartIs(k, Stride(p.width));
    PixelInside(bmp, p, x, k);
  }

  /** A pixel of the file is the pixel of the row that lies there. */
  lemma PixelOfRow(bmp: seq<Byte>, p: Bmp, rows: seq<seq<Pixel>>, pads: seq<seq<Byte>>, x: nat, y: nat, k: nat)
    requires Fits(bmp, p) && x < p.width && y < p.height && |rows| == |pads| == p.height && PadsFit(pads, p.width)
    requires k == FileRow(p, y) < p.height && forall j :: 0 <= j < |rows| ==> |rows[j]| == p.width
    requires var s := FileBytes(rows, pads); p.offset + |s| <= |bmp| && bmp[p.offset..p.offset + |s|] == s
    ensures BmpPixel(bmp, p, x, y) == rows[k][x]
  {
    hide *;
    var (s, stride) := (FileBytes(rows, pads), Stride(p.width));
    RowsFillStride(rows, pads, p.width);
    StrideIs(p.width);
    FileRowAt(rows, pads, stride, k);
    BgrAt(rows[k], x);
    PixelAt(bmp, p, x, y, k, p.offset + RowStart(k, stride));
    PixelLies(bmp, p.offset, s, RowStart(k, stride), stride, BgrBytes(rows[k]) + pads[k], 3 * x);
  }

  lemma PixelLies(bmp: seq<Byte>, offset: nat, s: seq<Byte>, at: nat, n: nat, row: seq<Byte>, i: nat)
    requires offset + |s| <= |bmp| && bmp[offset..offset + |s|] == s
    requires at + n <= |s| && s[at..at + n] == row && i + 3 <= n
    ensures bmp[offset + at + i] == row[i] && bmp[offset + at + i + 1] == row[i + 1] && bmp[offset + at + i + 2] == row[i + 2]
  {
    assert s[at + i] == row[i] && s[at + i + 1] == row[i + 1] && s[at + i + 2] == row[i + 2];
    assert bmp[offset..offset + |s|][at + i] == bmp[offset + at + i];
    assert bmp[offset..offset + |s|][at + i + 1] == bmp[offset + at + i + 1];
    assert bmp[offset..offset + |s|][at + i + 2] == bmp[offset + at + i + 2];
  }

  /** A file that shows an image is parsed, and its image is that one. */
  lemma ShownIsRead(bmp: seq<Byte>, image: Image, offset: nat, topDown: bool, pads: seq<seq<Byte>>)
    requires Shows(bmp, image, offset, topDown, pads)
    ensures ParseBmp(bmp) == Some(Bmp(offset, image.width, image.height, topDown))
    ensures BmpImage(bmp, Bmp(offset, image.width, image.height, topDown)) == image
  {
    var p := Bmp(offset, image.width, image.height, topDown);
    var rows := FileOrder(image.rows, topDown);
    hide FileBytes, Describes, Padding, Stride, ParseBmp, BmpPixel, RowStart, PadsFit;
    ShownFits(bmp, p, rows, pads);
    forall y: nat, x: nat | y < p.height && x < p.width ensures BmpPixel(bmp, p, x, y) == image.rows[y][x] {
      PixelOfRow(bmp, p, rows, pads, x, y, FileRow(p, y));
    }
    forall y | 0 <= y < p.height ensures BmpRows(bmp, p)[y] == image.rows[y] {
      assert BmpRow(bmp, p, y) == image.rows[y];
    }
    assert BmpRows(bmp, p) == image.rows;
  }

  lemma ShownFits(bmp: seq<Byte>, p: Bmp, rows: seq<seq<Pixel>>, pads: seq<seq<Byte>>)
    requires p.offset < 0x1_0000_0000 && 0 < p.width <= 32768 && 0 < p.height <= 32768
    requires |rows| == |pads| == p.height && PadsFit(pads, p.width) && forall y :: 0 <= y < |rows| ==> |rows[y]| == p.width
    requires Describes(bmp, p.offset, p.width, p.height, p.topDown) && p.offset + |FileBytes(rows, pads)| <= |bmp|
    ensures Fits(bmp, p) && ParseBmp(bmp) == Some(p)
  {
    RowsFillStride(rows, pads, p.width);
    hide FileBytes, Describes, Padding, Stride, ParseBmp, RowStart, PadsFit;
    FileSize(rows, pads, Stride(p.width));
    RowStartIs(p.height, Stride(p.width));
    StrideIs(p.width);
    ParsedIff(bmp, p.offset, p.width, p.height, p.topDown);
  }

  /** What fills row k up in the file. */
  function PadOf(bmp: seq<Byte>, p: Bmp, k: nat): (pad: seq<Byte>)
    requires Fits(bmp, p) && k < p.height
    ensures |pad| == Padding(p.width)
  {
    StrideIs(p.width);
    RowEnds(bmp, p, k);
    var at := p.offset + RowStart(k, Stride(p.width));
    bmp[at + 3 * p.width..at + Stride(p.width)]
  }

  lemma RowEnds(bmp: seq<Byte>, p: Bmp, k: nat)
    requires Fits(bmp, p) && k < p.height
    ensures p.offset + RowStart(k, Stride(p.width)) + Stride(p.width) <= p.offset + RowStart(p.height, Stride(p.width)) <= |bmp|
  {
    hide RowStart, Stride;
    RowStarts(k, p.height, Stride(p.width));
    RowStartIs(p.height, Stride(p.width));
  }

  lemma {:induction false} BgrOfPixels(s: seq<Byte>, row: seq<Pixel>)
    requires |s| == 3 * |row|
    requires forall x :: 0 <= x < |row| ==> row[x] == Pixel(s[3 * x + 2], s[3 * x + 1], s[3 * x])
    ensures BgrBytes(row) == s
  {
    if row != [] {
      var (rest, t) := (row[1..], s[3..]);
      forall x | 0 <= x < |rest| ensures rest[x] == Pixel(t[3 * x + 2], t[3 * x + 1], t[3 * x]) {
        assert rest[x] == row[x + 1];
      }
      BgrOfPixels(t, rest);
      assert row[0] == Pixel(s[2], s[1], s[0]);
      assert s == [s[0], s[1], s[2]] + t;
    }
  }

  /** Row and padding lie in s at a place. */
  predicate LiesAt(s: seq<Byte>, at: nat, bytes: seq<Byte>) {
    at + |bytes| <= |s| && s[at..at + |bytes|] == bytes
  }

  lemma LiesBehind(s: seq<Byte>, n: nat, at: nat, bytes: seq<Byte>)
    requires n <= at && n <= |s| && LiesAt(s, at, bytes)
    ensures LiesAt(s[n..], at - n, bytes)
  {
    assert s[n..][at - n..at - n + |bytes|] == s[at..at + |bytes|];
  }

  lemma RowStartStep(k: nat, stride: nat)
    ensures RowStart(0, stride) == 0 && RowStart(k + 1, stride) == RowStart(k, stride) + stride
  {
  }

  lemma {:induction false} RowsInFile(s: seq<Byte>, stride: nat, rows: seq<seq<Pixel>>, pads: seq<seq<Byte>>)
    requires Filled(rows, pads, stride) && |s| == RowStart(|rows|, stride)
    requires forall k: nat :: k < |rows| ==> LiesAt(s, RowStart(k, stride), BgrBytes(rows[k]) + pads[k])
    ensures FileBytes(rows, pads) == s
  {
    hide BgrBytes, LiesAt, RowStart;
    RowStartStep(0, stride);
    if rows != [] {
      FilledTail(rows, pads, stride);
      var (n, first) := (|rows| - 1, BgrBytes(rows[0]) + pads[0]);
      RowStartStep(n, stride);
      assert LiesAt(s, RowStart(0, stride), first);
      FirstLies(s, first);
      var t := s[stride..];
      forall k: nat | k < n ensures LiesAt(t, RowStart(k, stride), BgrBytes(rows[1..][k]) + pads[1..][k]) {
        RowStartStep(k, stride);
        assert LiesAt(s, RowStart(k + 1, stride), BgrBytes(rows[k + 1]) + pads[k + 1]);
        LiesBehind(s, stride, RowStart(k + 1, stride), BgrBytes(rows[k + 1]) + pads[k + 1]);
      }
      RowsInFile(t, stride, rows[1..], pads[1..]);
    }
  }

  lemma FirstLies(s: seq<Byte>, first: seq<Byte>)
    requires LiesAt(s, 0, first)
    ensures |first| <= |s| && s == first + s[|first|..]
  {
  }

  lemma BgrInFile(bmp: seq<Byte>, p: Bmp, y: nat, k: nat, at: nat)
    requires Fits(bmp, p) && y < p.height && k == FileRow(p, y)
    requires at == p.offset + RowStart(k, Stride(p.width)) && at + 3 * p.width <= |bmp|
    ensures BgrBytes(BmpRow(bmp, p, y)) == bmp[at..at + 3 * p.width]
  {
    hide *;
    var (s, row) := (bmp[at..at + 3 * p.width], BmpRow(bmp, p, y));
    forall x | 0 <= x < |row| ensures row[x] == Pixel(s[3 * x + 2], s[3 * x + 1], s[3 * x]) {
      PixelAt(bmp, p, x, y, k, at);
    }
    BgrOfPixels(s, row);
  }

  lemma FileRowTwice(p: Bmp, k: nat)
    requires k < p.height
    ensures FileRow(p, FileRow(p, k)) == k
  {
  }

  lemma RowInFile(bmp: seq<Byte>, p: Bmp, k: nat, y: nat)
    requires Fits(bmp, p) && k < p.height && y == FileRow(p, k) < p.height
    ensures LiesAt(bmp, p.offset + RowStart(k, Stride(p.width)), BgrBytes(BmpRow(bmp, p, y)) + PadOf(bmp, p, k))
  {
    hide *;
    FileRowTwice(p, k);
    var at := p.offset + RowStart(k, Stride(p.width));
    PadLies(bmp, p, k, at);
    BgrInFile(bmp, p, y, k, at);
    JoinsTo(bmp, at, 3 * p.width, Stride(p.width));
  }

  lemma PadLies(bmp: seq<Byte>, p: Bmp, k: nat, at: nat)
    requires Fits(bmp, p) && k < p.height && at == p.offset + RowStart(k, Stride(p.width))
    ensures 3 * p.width <= Stride(p.width) && at + Stride(p.width) <= |bmp|
    ensures PadOf(bmp, p, k) == bmp[at + 3 * p.width..at + Stride(p.width)]
  {
    StrideIs(p.width);
    RowEnds(bmp, p, k);
    hide RowStart, Stride;
  }

  lemma JoinsTo(bmp: seq<Byte>, at: nat, n: nat, m: nat)
    requires n <= m && at + m <= |bmp|
    ensures LiesAt(bmp, at, bmp[at..at + n] + bmp[at + n..at + m])
  {
  }

  /** And every parsed file shows its image. */
  lemma ReadIsShown(bmp: seq<Byte>, p: Bmp) returns (pads: seq<seq<Byte>>)
    requires ParseBmp(bmp) == Some(p)
    ensures Fits(bmp, p) && Shows(bmp, BmpImage(bmp, p), p.offset, p.topDown, pads)
  {
    hide *;
    ParseBounds(bmp, p);
    pads := PadsOf(bmp, p);
    ParsedIff(bmp, p.offset, p.width, p.height, p.topDown);
    RowsInOrder(bmp, p);
    ImageOf(bmp, p);
    RowsLie(bmp, p, FileOrder(BmpRows(bmp, p), p.topDown), pads);
    ShowsOf(bmp, BmpImage(bmp, p), p.offset, p.topDown, pads);
  }

  lemma ShowsOf(bmp: seq<Byte>, image: Image, offset: nat, topDown: bool, pads: seq<seq<Byte>>)
    requires offset < 0x1_0000_0000 && 0 < image.width <= 32768 && 0 < image.height <= 32768
    requires |image.rows| == |pads| == image.height
    requires forall y :: 0 <= y < image.height ==> |image.rows[y]| == image.width && |pads[y]| == Padding(image.width)
    requires Describes(bmp, offset, image.width, image.height, topDown)
    requires var rows := FileBytes(FileOrder(image.rows, topDown), pads);
             offset + |rows| <= |bmp| && bmp[offset..offset + |rows|] == rows
    ensures Shows(bmp, image, offset, topDown, pads)
  {
    hide Describes, FileBytes, FileOrder, Padding;
  }

  function PadsOf(bmp: seq<Byte>, p: Bmp): (pads: seq<seq<Byte>>)
    requires Fits(bmp, p)
    ensures |pads| == p.height && forall k :: 0 <= k < p.height ==> pads[k] == PadOf(bmp, p, k)
  {
    seq(p.height, k requires 0 <= k < p.height => PadOf(bmp, p, k))
  }

  lemma RowsInOrder(bmp: seq<Byte>, p: Bmp)
    requires Fits(bmp, p)
    ensures forall k :: 0 <= k < p.height ==> FileOrder(BmpRows(bmp, p), p.topDown)[k] == BmpRow(bmp, p, FileRow(p, k))
  {
    hide BmpRow, BmpRows, FileOrder;
  }

  lemma RowsLie(bmp: seq<Byte>, p: Bmp, rows: seq<seq<Pixel>>, pads: seq<seq<Byte>>)
    requires Fits(bmp, p) && |rows| == |pads| == p.height
    requires forall k :: 0 <= k < p.height ==> rows[k] == BmpRow(bmp, p, FileRow(p, k)) && pads[k] == PadOf(bmp, p, k)
    ensures var body := FileBytes(rows, pads);
            p.offset + |body| <= |bmp| && bmp[p.offset..p.offset + |body|] == body
  {
    var stride := Stride(p.width);
    hide Padding, Stride, FileBytes, BgrBytes, BmpRow, PadOf, RowStart, LiesAt, FileRow;
    RowStartIs(p.height, stride);
    StrideIs(p.width);
    var s := bmp[p.offset..p.offset + RowStart(p.height, stride)];
    forall k: nat | k < p.height ensures LiesAt(s, RowStart(k, stride), BgrBytes(rows[k]) + pads[k]) {
      RowEnds(bmp, p, k);
      RowInFile(bmp, p, k, FileRow(p, k));
      LiesBetween(bmp, p.offset, RowStart(p.height, stride), RowStart(k, stride), BgrBytes(rows[k]) + pads[k]);
    }
    RowsInFile(s, stride, rows, pads);
  }

  lemma LiesBetween(bmp: seq<Byte>, offset: nat, n: nat, at: nat, bytes: seq<Byte>)
    requires LiesAt(bmp, offset + at, bytes) && at + |bytes| <= n && offset + n <= |bmp|
    ensures LiesAt(bmp[offset..offset + n], at, bytes)
  {
    var s := bmp[offset..offset + n];
    forall i | 0 <= i < |bytes| ensures s[at..at + |bytes|][i] == bytes[i] {
      assert bmp[offset + at..offset + at + |bytes|][i] == bytes[i];
    }
    assert s[at..at + |bytes|] == bytes;
  }

  lemma ParseBounds(bmp: seq<Byte>, p: Bmp)
    requires ParseBmp(bmp) == Some(p)
    ensures p.offset < 0x1_0000_0000 && 0 < p.width <= 32768 && 0 < p.height <= 32768 && Fits(bmp, p)
  {
  }

  // ── What the encoder writes ───────────────────────────────────────────────────

  const SIGNATURE: seq<Byte> := [0x89, 0x50, 0x4E, 0x47, 0x0D, 0x0A, 0x1A, 0x0A]
  const IHDR: seq<Byte> := [0x49, 0x48, 0x44, 0x52]
  const IDAT: seq<Byte> := [0x49, 0x44, 0x41, 0x54]
  const IEND: seq<Byte> := [0x49, 0x45, 0x4E, 0x44]

  function RowBytes(row: seq<Pixel>): (r: seq<Byte>)
    ensures |r| == 3 * |row|
  {
    if row == [] then [] else [row[0].r, row[0].g, row[0].b] + RowBytes(row[1..])
  }

  function Raw(rows: seq<seq<Pixel>>): seq<Byte> {
    if rows == [] then [] else [0] + RowBytes(rows[0]) + Raw(rows[1..])
  }

  function Header(final: bool, n: nat): (r: seq<Byte>)
    requires n <= 0xFFFF
    ensures |r| == 5
  {
    [if final then 1 else 0, n % 0x100, n / 0x100, 0xFF - n % 0x100, 0xFF - n / 0x100]
  }

  /** Stored blocks of 65535 bytes, the last one final and no longer than that. */
  function Blocks(raw: seq<Byte>): (r: seq<Byte>)
    decreases |raw|
  {
    if |raw| <= 0xFFFF then Header(true, |raw|) + raw
    else Header(false, 0xFFFF) + raw[..0xFFFF] + Blocks(raw[0xFFFF..])
  }

  function Zlib(raw: seq<Byte>): seq<Byte> {
    [0x78, 0x01] + Blocks(raw) + Be32(Adler32(raw))
  }

  function ChunkBytes(kind: seq<Byte>, data: seq<Byte>): (r: seq<Byte>)
    requires |kind| == 4 && |data| <= FIELD_LIMIT
    ensures |r| == 12 + |data|
  {
    Be32(|data|) + kind + data + Be32(Crc32(kind + data))
  }

  function IhdrData(width: nat, height: nat): (r: seq<Byte>)
    requires width <= FIELD_LIMIT && height <= FIELD_LIMIT
    ensures |r| == 13
  {
    Be32(width) + Be32(height) + [8, 2, 0, 0, 0]
  }

  function Png(width: nat, height: nat, z: seq<Byte>): seq<Byte>
    requires width <= FIELD_LIMIT && height <= FIELD_LIMIT && |z| <= FIELD_LIMIT
  {
    SIGNATURE + (ChunkBytes(IHDR, IhdrData(width, height)) + (ChunkBytes(IDAT, z) + ChunkBytes(IEND, [])))
  }

  // ── Round trips, layer by layer ───────────────────────────────────────────────

  lemma {:induction false} PixelsOfRow(row: seq<Pixel>)
    ensures Pixels(RowBytes(row)) == row
  {
    if row != [] {
      assert RowBytes(row)[3..] == RowBytes(row[1..]);
      PixelsOfRow(row[1..]);
    }
  }

  lemma FirstRow(rows: seq<seq<Pixel>>, width: nat)
    requires rows != [] && |rows[0]| == width
    ensures var s := Raw(rows);
            && |s| >= 1 + 3 * width && s[0] == 0
            && s[1..1 + 3 * width] == RowBytes(rows[0]) && s[1 + 3 * width..] == Raw(rows[1..])
  {
    hide RowBytes;
  }

  lemma {:induction false} UnfilterOfRaw(rows: seq<seq<Pixel>>, width: nat)
    requires forall y :: 0 <= y < |rows| ==> |rows[y]| == width
    ensures Unfilter(Raw(rows), width, |rows|) == Some(rows)
  {
    if rows != [] {
      FirstRow(rows, width);
      UnfilterOfRaw(rows[1..], width);
      hide RowBytes, Pixels;
      PixelsOfRow(rows[0]);
      assert rows == [rows[0]] + rows[1..];
    }
  }

  lemma HeaderReads(final: bool, n: nat, rest: seq<Byte>)
    requires n <= 0xFFFF && n <= |rest|
    ensures var s := Header(final, n) + rest;
            && s[5..5 + n] == rest[..n] && s[5 + n..] == rest[n..]
            && (final ==> Inflate(s) == Some((rest[..n], rest[n..])))
            && (!final && Inflate(rest[n..]).Some? ==>
                  Inflate(s) == Some((rest[..n] + Inflate(rest[n..]).value.0, Inflate(rest[n..]).value.1)))
  {
  }

  lemma BlockReads(final: bool, block: seq<Byte>, rest: seq<Byte>)
    requires |block| <= 0xFFFF
    ensures var s := Header(final, |block|) + block + rest;
            && (final ==> Inflate(s) == Some((block, rest)))
            && (!final && Inflate(rest).Some? ==> Inflate(s) == Some((block + Inflate(rest).value.0, Inflate(rest).value.1)))
  {
    hide Inflate, Header;
    HeaderReads(final, |block|, block + rest);
    assert Header(final, |block|) + block + rest == Header(final, |block|) + (block + rest);
    assert (block + rest)[..|block|] == block && (block + rest)[|block|..] == rest;
  }

  lemma BlocksSplit(raw: seq<Byte>, tail: seq<Byte>)
    ensures Blocks(raw) + tail == if |raw| <= 0xFFFF then Header(true, |raw|) + raw + tail
                                  else Header(false, 0xFFFF) + raw[..0xFFFF] + (Blocks(raw[0xFFFF..]) + tail)
  {
    hide Header;
  }

  lemma {:induction false} InflateOfBlocks(raw: seq<Byte>, tail: seq<Byte>)
    ensures Inflate(Blocks(raw) + tail) == Some((raw, tail))
    decreases |raw|
  {
    hide Inflate, Header, Blocks;
    BlocksSplit(raw, tail);
    if |raw| <= 0xFFFF {
      BlockReads(true, raw, tail);
    } else {
      InflateOfBlocks(raw[0xFFFF..], tail);
      BlockReads(false, raw[..0xFFFF], Blocks(raw[0xFFFF..]) + tail);
      assert raw[..0xFFFF] + raw[0xFFFF..] == raw;
    }
  }

  lemma UnzlibOfZlib(raw: seq<Byte>)
    ensures Unzlib(Zlib(raw)) == Some(raw)
  {
    hide Inflate, Blocks, Adler32;
    var tail := Be32(Adler32(raw));
    InflateOfBlocks(raw, tail);
    assert Zlib(raw)[2..] == Blocks(raw) + tail;
    Be32RoundTrip(Adler32(raw), []);
    assert tail + [] == tail;
  }

  lemma ReadChunkOf(kind: seq<Byte>, data: seq<Byte>, tail: seq<Byte>, limit: nat)
    requires |kind| == 4 && |data| <= FIELD_LIMIT
    ensures ReadChunk(ChunkBytes(kind, data) + tail, limit)
         == if |data| <= limit then Some((Chunk(kind, data), tail)) else None
  {
    hide Crc32, Be32, ReadU32;
    var s := ChunkBytes(kind, data) + tail;
    var n := |data|;
    Be32RoundTrip(n, kind + data + Be32(Crc32(kind + data)) + tail);
    assert s == Be32(n) + (kind + data + Be32(Crc32(kind + data)) + tail);
    Be32RoundTrip(Crc32(kind + data), tail);
    ChunkParts(kind, data, Be32(n), Be32(Crc32(kind + data)), tail);
  }

  lemma ChunkParts(kind: seq<Byte>, data: seq<Byte>, length: seq<Byte>, crc: seq<Byte>, tail: seq<Byte>)
    requires |kind| == |length| == |crc| == 4
    ensures var (s, n) := (length + kind + data + crc + tail, |data|);
            && s[4..8] == kind && s[8..8 + n] == data && s[4..8 + n] == kind + data
            && s[8 + n..] == crc + tail && s[12 + n..] == tail
  {
  }

  lemma ReadChunksOf(a: seq<Byte>, b: seq<Byte>, c: seq<Byte>, x: Chunk, y: Chunk, z: Chunk, limit: nat)
    requires |a| > 0 && |b| > 0 && |c| > 0
    requires ReadChunk(a + (b + c), limit) == Some((x, b + c))
    requires ReadChunk(b + c, limit) == Some((y, c)) && ReadChunk(c, limit) == Some((z, []))
    ensures ReadChunks(a + (b + c), limit) == Some([x, y, z])
  {
    hide ReadChunk;
    assert ReadChunks([], limit) == Some([]);
    assert ReadChunks(c, limit) == Some([z] + []);
    assert ReadChunks(b + c, limit) == Some([y] + ([z] + []));
    assert [x] + ([y] + ([z] + [])) == [x, y, z];
  }

  lemma ChunksOfPng(width: nat, height: nat, z: seq<Byte>, limit: nat)
    requires width <= FIELD_LIMIT && height <= FIELD_LIMIT && |z| <= FIELD_LIMIT && limit >= 13
    ensures Png(width, height, z)[8..] == ChunkBytes(IHDR, IhdrData(width, height)) + (ChunkBytes(IDAT, z) + ChunkBytes(IEND, []))
    ensures ReadChunks(Png(width, height, z)[8..], limit)
         == if |z| <= limit then Some([Chunk(IHDR, IhdrData(width, height)), Chunk(IDAT, z), Chunk(IEND, [])]) else None
  {
    hide ReadChunk, ChunkBytes, IhdrData;
    var a, b, c := ChunkBytes(IHDR, IhdrData(width, height)), ChunkBytes(IDAT, z), ChunkBytes(IEND, []);
    assert Png(width, height, z)[8..] == a + (b + c);
    ReadChunkOf(IHDR, IhdrData(width, height), b + c, limit);
    ReadChunkOf(IDAT, z, c, limit);
    if |z| <= limit {
      ReadChunkOf(IEND, [], [], limit);
      assert c + [] == c;
      ReadChunksOf(a, b, c, Chunk(IHDR, IhdrData(width, height)), Chunk(IDAT, z), Chunk(IEND, []), limit);
    }
  }

  lemma IhdrReads(width: nat, height: nat)
    requires width <= FIELD_LIMIT && height <= FIELD_LIMIT
    ensures var d := IhdrData(width, height);
            ReadU32(d) == width && ReadU32(d[4..]) == height && d[8..] == [8, 2, 0, 0, 0]
  {
    hide Be32, ReadU32;
    var d := IhdrData(width, height);
    var fixed: seq<Byte> := [8, 2, 0, 0, 0];
    assert d == Be32(width) + (Be32(height) + fixed);
    Be32RoundTrip(width, Be32(height) + fixed);
    Be32RoundTrip(height, fixed);
    assert d[8..] == d[4..][4..];
  }

  lemma OneData(z: seq<Byte>)
    ensures AllData([Chunk(IDAT, z)]) == Some(z)
  {
    assert AllData([]) == Some([]);
    assert z + [] == z;
  }

  /** The decoder reads back every image whose compressed data fits one chunk of the decoder's limit, and
      refuses the others. */
  lemma DecodeOfPng(image: Image, limit: nat)
    requires 0 < image.width <= 0x7FFF_FFFF && 0 < image.height <= 0x7FFF_FFFF && limit >= 13
    requires |image.rows| == image.height && forall y :: 0 <= y < image.height ==> |image.rows[y]| == image.width
    requires |Zlib(Raw(image.rows))| <= FIELD_LIMIT
    ensures var z := Zlib(Raw(image.rows));
            DecodePng(Png(image.width, image.height, z), limit) == if |z| <= limit then Some(image) else None
  {
    hide Zlib, Raw, ReadChunks, ChunkBytes, IhdrData, Unzlib, Unfilter, AllData, ReadU32;
    var z := Zlib(Raw(image.rows));
    var png := Png(image.width, image.height, z);
    ChunksOfPng(image.width, image.height, z, limit);
    assert png[..8] == SIGNATURE;
    if |z| <= limit {
      var chunks := [Chunk(IHDR, IhdrData(image.width, image.height)), Chunk(IDAT, z), Chunk(IEND, [])];
      IhdrReads(image.width, image.height);
      assert chunks[1..|chunks| - 1] == [Chunk(IDAT, z)];
      OneData(z);
      UnzlibOfZlib(Raw(image.rows));
      UnfilterOfRaw(image.rows, image.width);
    }
  }

  // ── Sizes ─────────────────────────────────────────────────────────────────────

  /** The bytes of a zlib stream of n bytes in stored blocks. */
  function ZlibSize(n: nat): nat {
    2 + n + 5 * ((n + 0xFFFE) / 0xFFFF) + 4
  }

  lemma {:induction false} BlocksSize(raw: seq<Byte>)
    requires raw != []
    ensures |Blocks(raw)| == |raw| + 5 * ((|raw| + 0xFFFE) / 0xFFFF)
    decreases |raw|
  {
    hide Header;
    if |raw| > 0xFFFF {
      BlocksSize(raw[0xFFFF..]);
      var n := |raw| + 0xFFFE;
      DivMod(n, 0xFFFF, (n - 0xFFFF) / 0xFFFF + 1, (n - 0xFFFF) % 0xFFFF);
    } else {
      DivMod(|raw| + 0xFFFE, 0xFFFF, 1, |raw| - 1);
    }
  }

  lemma ZlibHasSize(raw: seq<Byte>)
    requires raw != []
    ensures |Zlib(raw)| == ZlibSize(|raw|)
  {
    hide Blocks;
    BlocksSize(raw);
  }

  /** Bytes of the filtered rows. */
  function RawSize(width: nat, height: nat): nat {
    MulNonNegative(height, 1 + 3 * width);
    height * (1 + 3 * width)
  }

  lemma {:induction false} RawHasSize(rows: seq<seq<Pixel>>, width: nat)
    requires forall y :: 0 <= y < |rows| ==> |rows[y]| == width
    ensures |Raw(rows)| == RawSize(width, |rows|)
  {
    if rows != [] { RawHasSize(rows[1..], width); }
  }

  /** Every length of every accepted image fits its 32-bit field. */
  lemma SizesFit(width: nat, height: nat)
    requires 0 < width <= 32768 && 0 < height <= 32768
    ensures 0 < RawSize(width, height) && ZlibSize(RawSize(width, height)) <= FIELD_LIMIT
  {
    MulNonNegative(32768 - height, 1 + 3 * width);
    MulNonNegative(height - 1, 1 + 3 * width);
    assert 32768 * (1 + 3 * width) == RawSize(width, height) + (32768 - height) * (1 + 3 * width);
    assert RawSize(width, height) == (height - 1) * (1 + 3 * width) + (1 + 3 * width);
  }

  // ── bmp_to_png ────────────────────────────────────────────────────────────────

  lemma {:induction false} RowBytesAppend(row: seq<Pixel>, p: Pixel)
    ensures RowBytes(row + [p]) == RowBytes(row) + [p.r, p.g, p.b]
  {
    if row == [] {
      assert row + [p] == [p];
    } else {
      assert (row + [p])[1..] == row[1..] + [p];
      RowBytesAppend(row[1..], p);
    }
  }

  lemma {:induction false} RawAppend(rows: seq<seq<Pixel>>, row: seq<Pixel>)
    ensures Raw(rows + [row]) == Raw(rows) + ([0] + RowBytes(row))
  {
    hide RowBytes;
    if rows == [] {
      assert rows + [row] == [row];
      assert Raw([row]) == [0] + RowBytes(row) + [];
    } else {
      assert (rows + [row])[1..] == rows[1..] + [row];
      RawAppend(rows[1..], row);
    }
  }

  method PutRow(bmp: seq<Byte>, p: Bmp, r: nat, before: seq<Byte>) returns (raw: seq<Byte>)
    requires Fits(bmp, p) && r < p.height
    ensures raw == before + ([0] + RowBytes(BmpRow(bmp, p, r)))
  {
    hide RowBytes;
    var s := p.offset + (if p.topDown then r else p.height - 1 - r) * Stride(p.width);
    raw := before + [0];
    ghost var row := BmpRow(bmp, p, r);
    NoPixels();
    var x := 0;
    while x < p.width
      invariant 0 <= x <= p.width
      invariant s == p.offset + FileRow(p, r) * Stride(p.width) + 3 * x
      invariant raw == before + ([0] + RowBytes(row[..x]))
    {
      PixelInside(bmp, p, x, FileRow(p, r));
      raw := raw + [bmp[s + 2], bmp[s + 1], bmp[s]];
      RowBytesAppend(row[..x], row[x]);
      assert row[..x + 1] == row[..x] + [row[x]];
      s := s + 3;
      x := x + 1;
    }
    assert row[..x] == row;
  }

  lemma NoPixels()
    ensures RowBytes([]) == [] && Raw([]) == []
  {
  }

  /** The header and the data of one block. */
  method PutBlock(z: seq<Byte>, data: seq<Byte>, last: bool) returns (r: seq<Byte>)
    requires |data| <= 0xFFFF
    ensures r == z + (Header(last, |data|) + data)
  {
    var n := |data|;
    r := z + [if last then 1 else 0];
    r := r + [n % 0x100];
    r := r + [n / 0x100 % 0x100];
    r := r + [0xFF - n % 0x100];
    r := r + [0xFF - n / 0x100 % 0x100];
    assert r == z + Header(last, n);
    r := r + data;
  }

  lemma BlockOf(raw: seq<Byte>, n: nat)
    requires n == if |raw| < 0xFFFF then |raw| else 0xFFFF
    ensures Blocks(raw) == (Header(n == |raw|, n) + raw[..n]) + (if n < |raw| then Blocks(raw[n..]) else [])
  {
    hide Header;
    if n == |raw| {
      assert raw[..n] == raw;
      assert Header(true, n) + raw + [] == Header(true, n) + raw;
    }
  }

  lemma BlockPut(all: seq<Byte>, z: seq<Byte>, block: seq<Byte>, left: seq<Byte>, rest: seq<Byte>)
    requires all == z + left && left == block + rest
    ensures all == z + block + rest
  {
  }

  method PutBlocks(raw: seq<Byte>) returns (z: seq<Byte>)
    requires raw != []
    ensures z == [0x78, 0x01] + Blocks(raw)
  {
    hide Blocks, Header;
    z := [0x78];
    z := z + [0x01];
    ghost var all := z + Blocks(raw);
    assert all == [0x78, 0x01] + Blocks(raw);
    ghost var left := Blocks(raw);
    var pos := 0;
    assert raw[pos..] == raw;
    while pos < |raw|
      invariant 0 <= pos <= |raw|
      invariant all == z + left
      invariant left == if pos < |raw| then Blocks(raw[pos..]) else []
    {
      var n := if |raw| - pos < 65535 then |raw| - pos else 65535;
      var last := pos + n == |raw|;
      BlockOf(raw[pos..], n);
      assert raw[pos..][..n] == raw[pos..pos + n] && raw[pos..][n..] == raw[pos + n..];
      ghost var rest := if pos + n < |raw| then Blocks(raw[pos + n..]) else [];
      BlockPut(all, z, Header(last, n) + raw[pos..pos + n], left, rest);
      z := PutBlock(z, raw[pos..pos + n], last);
      left := rest;
      pos := pos + n;
    }
    assert z + [] == z;
  }

  /** png_detail::chunk. */
  method PutChunk(out: seq<Byte>, kind: seq<Byte>, data: seq<Byte>) returns (r: seq<Byte>)
    requires |kind| == 4 && |data| <= FIELD_LIMIT
    ensures r == out + ChunkBytes(kind, data)
  {
    r := out + Be32(|data|) + kind + data;
    var crc := PngCrc32(kind + data);
    r := r + Be32(crc);
  }

  /** The PNG of an accepted BMP decodes to its pixels if chunks may have any length that their field can
      say; with the limit of RFC 2083 exactly if the compressed rows stay within it. Anything else gives
      nothing. */
  method BmpToPng(bmp: seq<Byte>) returns (png: seq<Byte>)
    ensures png != [] <==> exists image, offset, topDown, pads :: Shows(bmp, image, offset, topDown, pads)
    ensures forall image, offset, topDown, pads :: Shows(bmp, image, offset, topDown, pads) ==>
              && DecodePng(png, 0xFFFF_FFFF) == Some(image)
              && DecodePng(png, 0x7FFF_FFFF)
                 == if ZlibSize(RawSize(image.width, image.height)) <= 0x7FFF_FFFF then Some(image) else None
  {
    hide DecodePng, Raw, Zlib, Blocks, ChunkBytes, Shows, ParseBmp, BmpImage, BmpRows, Png, ZlibSize, RawSize;
    match ParseBmp(bmp) {
      case None =>
        NothingShown(bmp);
        png := [];
      case Some(p) =>
        ParseBounds(bmp, p);
        OneImage(bmp, p);
        var raw := PutRows(bmp, p);
        png := WritePng(p.width, p.height, raw, BmpRows(bmp, p));
        ImageOf(bmp, p);
        DecodeOfPng(BmpImage(bmp, p), FIELD_LIMIT);
        DecodeOfPng(BmpImage(bmp, p), CHUNK_LIMIT);
        PngIsNotEmpty(p.width, p.height, Zlib(raw));
    }
  }

  lemma NothingShown(bmp: seq<Byte>)
    requires ParseBmp(bmp).None?
    ensures forall image, offset, topDown, pads :: !Shows(bmp, image, offset, topDown, pads)
  {
    forall image, offset, topDown, pads | Shows(bmp, image, offset, topDown, pads) ensures false {
      ShownIsRead(bmp, image, offset, topDown, pads);
    }
  }

  /** A parsed file shows one image and no other. */
  lemma OneImage(bmp: seq<Byte>, p: Bmp)
    requires ParseBmp(bmp) == Some(p) && Fits(bmp, p)
    ensures exists offset, topDown, pads :: Shows(bmp, BmpImage(bmp, p), offset, topDown, pads)
    ensures forall image, offset, topDown, pads :: Shows(bmp, image, offset, topDown, pads) ==> image == BmpImage(bmp, p)
  {
    hide ParseBmp, Shows, BmpImage;
    var shown := ReadIsShown(bmp, p);
    forall image, offset, topDown, pads | Shows(bmp, image, offset, topDown, pads) ensures image == BmpImage(bmp, p) {
      ShownIsRead(bmp, image, offset, topDown, pads);
    }
  }

  lemma ImageOf(bmp: seq<Byte>, p: Bmp)
    requires Fits(bmp, p)
    ensures BmpImage(bmp, p) == Image(p.width, p.height, BmpRows(bmp, p))
  {
  }

  lemma PngIsNotEmpty(width: nat, height: nat, z: seq<Byte>)
    requires width <= FIELD_LIMIT && height <= FIELD_LIMIT && |z| <= FIELD_LIMIT
    ensures Png(width, height, z) != []
  {
    hide ChunkBytes;
  }

  /** All scanlines. */
  method PutRows(bmp: seq<Byte>, p: Bmp) returns (raw: seq<Byte>)
    requires Fits(bmp, p)
    ensures raw == Raw(BmpRows(bmp, p))
  {
    hide Raw, BmpPixel;
    ghost var rows := BmpRows(bmp, p);
    raw := [];
    NoPixels();
    var r := 0;
    while r < p.height
      invariant 0 <= r <= p.height
      invariant raw == Raw(rows[..r])
    {
      raw := PutRow(bmp, p, r, raw);
      RawAppend(rows[..r], rows[r]);
      assert rows[..r + 1] == rows[..r] + [rows[r]];
      r := r + 1;
    }
    assert rows[..r] == rows;
  }

  method WritePng(width: nat, height: nat, raw: seq<Byte>, ghost rows: seq<seq<Pixel>>) returns (png: seq<Byte>)
    requires 0 < width <= 32768 && 0 < height <= 32768 && raw == Raw(rows) && |rows| == height
    requires forall y :: 0 <= y < height ==> |rows[y]| == width
    ensures |Zlib(raw)| == ZlibSize(RawSize(width, height)) <= FIELD_LIMIT
    ensures png == Png(width, height, Zlib(raw))
  {
    hide Raw, Blocks, ChunkBytes, RawSize, ZlibSize, Adler32, Be32;
    RawHasSize(rows, width);
    SizesFit(width, height);
    ZlibHasSize(raw);
    var z := PutBlocks(raw);
    var adler := PngAdler32(raw);
    z := z + Be32(adler);
    png := SIGNATURE;
    var ihdr := Be32(width) + Be32(height) + [8, 2, 0, 0, 0];
    assert ihdr == IhdrData(width, height);
    png := PutChunk(png, IHDR, ihdr);
    png := PutChunk(png, IDAT, z);
    png := PutChunk(png, IEND, []);
  }

  // ── Where RFC 2083 is exceeded ────────────────────────────────────────────────

  /** A black BMP, bottom-up, without anything but its headers and rows. */
  function BlackBmp(side: nat): seq<Byte>
    requires 0 < side <= 0xFFFF
  {
    MulNonNegative(Stride(side), side);
    [0x42, 0x4D, 0, 0, 0, 0, 0, 0, 0, 0, 54, 0, 0, 0, 40, 0, 0, 0, side % 0x100, side / 0x100, 0, 0,
     side % 0x100, side / 0x100, 0, 0, 1, 0, 24, 0] + seq(24 + Stride(side) * side, _ => 0)
  }

  /** The largest image accepted is one whose data chunk is longer than RFC 2083 allows. */
  lemma LargestIsTooLarge()
    ensures ParseBmp(BlackBmp(32768)) == Some(Bmp(54, 32768, 32768, false))
    ensures ZlibSize(RawSize(32768, 32768)) > CHUNK_LIMIT
  {
  }
}
