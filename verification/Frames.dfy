/** Frames (bs-codec.h): two header forms around a payload that may be compressed. */
module Frames {
  import opened Bytes
  import opened Sequences
  import opened Wire
  import opened Messages
  import opened ServerInfos

  const MAX_PAYLOAD_U16: nat := 65535
  const COMPRESSION_THRESHOLD: nat := 256
  const FLAG_COMPRESSED: nat := 1
  const FLAG_CONTROL: nat := 2
  const FLAG_LENGTH_U32: nat := 8

  /** zstd_compress and zstd_decompress; None where they throw. */
  datatype Zstd = Zstd(compress: seq<Byte> -> Option<seq<Byte>>, decompress: seq<Byte> -> Option<seq<Byte>>)

  /** What the codec needs of zstd. */
  ghost predicate Lossless(z: Zstd) {
    forall s :: |s| <= MAX_PAYLOAD_U32 && z.compress(s).Some? ==>
      z.compress(s).value != [] && z.decompress(z.compress(s).value) == Some(s)
  }

  /** flags & flag, for a flag that is a power of two. */
  predicate Has(flags: Byte, flag: nat)
    requires flag > 0
  {
    flags as int / flag % 2 == 1
  }

  function Flags(compressed: bool, control: bool, large: bool): Byte {
    (if compressed then FLAG_COMPRESSED else 0) + (if control then FLAG_CONTROL else 0) + (if large then FLAG_LENGTH_U32 else 0)
  }

  /** The header of either form. */
  function Header(m: Message, streamId: U16, compressed: bool, large: bool, length: nat): (r: seq<Byte>)
    requires length <= if large then MAX_PAYLOAD_U32 else MAX_PAYLOAD_U16
    ensures |r| == if large then 8 else 6
  {
    Be16(streamId) + [TypeByte(m), Flags(compressed, streamId == 0, large)]
    + if large then Be32(length) else Be16(length)
  }

  /** encode; None where it throws. */
  function Encode(z: Zstd, m: Message, streamId: U16, allowLarge: bool): Option<seq<Byte>> {
    var payload :- Payload(m);
    if |payload| > (if allowLarge then MAX_PAYLOAD_U32 else MAX_PAYLOAD_U16) then None
    else
      var compress := |payload| > COMPRESSION_THRESHOLD;
      var wire :- if compress then z.compress(payload) else Some(payload);
      var large := allowLarge && |wire| > MAX_PAYLOAD_U16;
      if |wire| > (if large then MAX_PAYLOAD_U32 else MAX_PAYLOAD_U16) then None
      else Some(Header(m, streamId, compress, large, |wire|) + wire)
  }

  /** frame_header_layout: the header's size and the payload's. */
  function FrameHeaderLayout(data: seq<Byte>): Option<(nat, nat)> {
    if |data| < 6 then None
    else if Has(data[3], FLAG_LENGTH_U32) then
      if |data| < 8 || ReadU32(data[4..]) > MAX_PAYLOAD_U32 then None
      else Some((8, ReadU32(data[4..])))
    else Some((6, ReadU16(data[4..])))
  }

  function Decode(z: Zstd, raw: seq<Byte>): Option<Message> {
    var layout :- FrameHeaderLayout(raw);
    var (header, length) := layout;
    if |raw| < header + length then None
    else
      var wire := raw[header..header + length];
      var payload :- if Has(raw[3], FLAG_COMPRESSED) && length > 0 then z.decompress(wire) else Some(wire);
      if |payload| > MAX_PAYLOAD_U32 then None
      else DecodePayload(raw[2] as int, payload)
  }

  // ── The serializer at work ────────────────────────────────────────────────────

  ghost predicate ItemsLeft(items: seq<seq<Field>>, i: nat, done: seq<Byte>)
    requires i <= |items|
  {
    && EncItems(items).Some? == EncItems(items[i..]).Some?
    && (EncItems(items).Some? ==> EncItems(items).value == done + EncItems(items[i..]).value)
  }

  lemma NoItemsDone(items: seq<seq<Field>>)
    ensures ItemsLeft(items, 0, [])
  {
    assert items[0..] == items;
  }

  lemma ItemsStep(items: seq<seq<Field>>, i: nat, done: seq<Byte>)
    requires i < |items| && ItemsLeft(items, i, done)
    ensures EncAll(items[i]).None? ==> EncItems(items).None?
    ensures EncAll(items[i]).Some? ==> ItemsLeft(items, i + 1, done + EncAll(items[i]).value)
  {
    hide EncAll;
    assert items[i..][1..] == items[i + 1..] && items[i..][0] == items[i];
    if EncAll(items[i]).Some? && EncItems(items[i + 1..]).Some? {
      JoinThree(done, EncAll(items[i]).value, EncItems(items[i + 1..]).value);
    }
  }

  lemma AllItemsDone(items: seq<seq<Field>>, done: seq<Byte>)
    requires ItemsLeft(items, |items|, done)
    ensures EncItems(items) == Some(done)
  {
    assert items[|items|..] == [];
    assert done + [] == done;
  }

  lemma NoPayload(m: Message)
    requires Oversize(m) || EncAll(Fields(m)).None? || EncItems(Items(m)).None?
    ensures Payload(m).None?
  {
    hide EncAll, EncItems, Fields, Items, Oversize;
  }

  lemma WholePayload(m: Message, head: seq<Byte>, items: seq<Byte>)
    requires !Oversize(m) && EncAll(Fields(m)) == Some(head) && EncItems(Items(m)) == Some(items)
    ensures Payload(m) == Some(head + items)
  {
    hide EncAll, EncItems, Fields, Items, Oversize;
  }

  /** serialize_msg into a fresh buffer; None where it throws. */
  method Serialize(m: Message) returns (r: Option<seq<Byte>>)
    ensures r == Payload(m)
  {
    hide Payload, Fields, Items, Oversize, EncAll, EncItems, ItemsLeft;
    if Oversize(m) {
      NoPayload(m);
      return None;
    }
    var s := new Serializer();
    var ok := s.PutAll(Fields(m));
    if !ok {
      NoPayload(m);
      return None;
    }
    ghost var head := s.out;
    assert head == [] + EncAll(Fields(m)).value == EncAll(Fields(m)).value;
    var items := Items(m);
    ghost var done: seq<Byte> := [];
    NoItemsDone(items);
    var i := 0;
    while i < |items|
      invariant 0 <= i <= |items| && ItemsLeft(items, i, done) && s.out == head + done
    {
      ItemsStep(items, i, done);
      ok := s.PutAll(items[i]);
      if !ok {
        NoPayload(m);
        return None;
      }
      JoinThree(head, done, EncAll(items[i]).value);
      done := done + EncAll(items[i]).value;
      i := i + 1;
    }
    AllItemsDone(items, done);
    WholePayload(m, head, done);
    return Some(s.out);
  }

  // ── What a frame says of itself ───────────────────────────────────────────────

  lemma FlagsSay(compressed: bool, control: bool, large: bool)
    ensures var f := Flags(compressed, control, large);
            && (Has(f, FLAG_COMPRESSED) <==> compressed) && (Has(f, FLAG_CONTROL) <==> control)
            && (Has(f, FLAG_LENGTH_U32) <==> large)
  {
  }

  lemma HeaderSays(m: Message, streamId: U16, compressed: bool, large: bool, length: nat, rest: seq<Byte>)
    requires length <= if large then MAX_PAYLOAD_U32 else MAX_PAYLOAD_U16
    ensures var s := Header(m, streamId, compressed, large, length) + rest;
            && ReadU16(s) == streamId && s[2] == TypeByte(m) && s[3] == Flags(compressed, streamId == 0, large)
            && FrameHeaderLayout(s) == Some((if large then 8 else 6, length))
  {
    var s := Header(m, streamId, compressed, large, length) + rest;
    FlagsSay(compressed, streamId == 0, large);
    var size := if large then Be32(length) else Be16(length);
    HeaderParts(Be16(streamId), TypeByte(m), Flags(compressed, streamId == 0, large), size, rest);
    Be16RoundTrip(streamId, [TypeByte(m), Flags(compressed, streamId == 0, large)] + size + rest);
    if large { Be32RoundTrip(length, rest); } else { Be16RoundTrip(length, rest); }
    hide Be16, Be32, ReadU16, ReadU32, Flags, Has, TypeByte;
  }

  lemma HeaderParts(id: seq<Byte>, t: Byte, flags: Byte, size: seq<Byte>, rest: seq<Byte>)
    requires |id| == 2
    ensures var s := id + [t, flags] + size + rest;
            && s == id + ([t, flags] + size + rest) && s[2] == t && s[3] == flags && s[4..] == size + rest
  {
  }

  /** Whatever follows it, a frame's header tells where the frame ends; the long form is used only where
      it is allowed and needed. */
  lemma FrameIsSelfDelimiting(z: Zstd, m: Message, streamId: U16, allowLarge: bool, tail: seq<Byte>)
    requires Encode(z, m, streamId, allowLarge).Some?
    ensures var f := Encode(z, m, streamId, allowLarge).value;
            && |f| >= 6 && FrameHeaderLayout(f + tail).Some?
            && var (header, length) := FrameHeaderLayout(f + tail).value;
               && |f| == header + length
               && ReadU16(f + tail) == streamId && (f + tail)[2] == TypeByte(m)
               && (Has((f + tail)[3], FLAG_CONTROL) <==> streamId == 0)
               && (Has((f + tail)[3], FLAG_LENGTH_U32) <==> allowLarge && length > MAX_PAYLOAD_U16)
  {
    hide Payload, FrameHeaderLayout, Has, Flags, ReadU16, Header, TypeByte;
    var payload := Payload(m).value;
    var compress := |payload| > COMPRESSION_THRESHOLD;
    var wire := if compress then z.compress(payload).value else payload;
    var large := allowLarge && |wire| > MAX_PAYLOAD_U16;
    HeaderSays(m, streamId, compress, large, |wire|, wire + tail);
    FlagsSay(compress, streamId == 0, large);
    var h := Header(m, streamId, compress, large, |wire|);
    assert h + wire + tail == h + (wire + tail);
  }

  /** A peer without the capability never sees the long form. */
  lemma SmallPeersSeeSmallFrames(z: Zstd, m: Message, streamId: U16, tail: seq<Byte>)
    requires Encode(z, m, streamId, false).Some?
    ensures var f := Encode(z, m, streamId, false).value;
            |f| >= 6 && !Has((f + tail)[3], FLAG_LENGTH_U32) && |f| <= 6 + 65535
  {
    hide Encode, FrameHeaderLayout, Has;
    FrameIsSelfDelimiting(z, m, streamId, false, tail);
    ShortLayout(Encode(z, m, streamId, false).value + tail);
  }

  lemma ShortLayout(data: seq<Byte>)
    requires FrameHeaderLayout(data).Some? && !Has(data[3], FLAG_LENGTH_U32)
    ensures FrameHeaderLayout(data).value.0 == 6 && FrameHeaderLayout(data).value.1 <= MAX_PAYLOAD_U16
  {
  }

  // ── What is encoded at all ────────────────────────────────────────────────────

  /** encode throws exactly if the message cannot be serialized, if the payload is above 4 MiB (65535 bytes
      for a peer without the capability), or if it has more than 256 bytes and its compressed form fails or
      is above the same limit. */
  lemma EncodedIff(z: Zstd, m: Message, streamId: U16, allowLarge: bool)
    ensures Encode(z, m, streamId, allowLarge).Some? <==>
              && Writable(m) && Payload(m).Some?
              && var n := |Payload(m).value|;
                 var limit := if allowLarge then 4194304 else 65535;
                 && n <= limit
                 && (n > 256 ==> z.compress(Payload(m).value).Some? && |z.compress(Payload(m).value).value| <= limit)
  {
    hide Payload, Writable, Header;
    WrittenIff(m);
  }

  /** Of a frame, byte by byte: stream, type, flags (1 compressed, 2 control, 8 long length), the length in
      two or four bytes, and the payload, compressed above 256 bytes. */
  lemma FrameBytes(z: Zstd, m: Message, streamId: U16, allowLarge: bool)
    requires Encode(z, m, streamId, allowLarge).Some?
    ensures Payload(m).Some?
    ensures var payload := Payload(m).value;
            |payload| > 256 ==> z.compress(payload).Some?
    ensures var payload := Payload(m).value;
            var wire := if |payload| > 256 then z.compress(payload).value else payload;
            var (n, large) := (|wire|, allowLarge && |wire| > 65535);
            && n <= 4194304
            && var flags := (if |payload| > 256 then 1 else 0) + (if streamId == 0 then 2 else 0) + (if large then 8 else 0);
               Encode(z, m, streamId, allowLarge).value
               == [streamId / 256, streamId % 256, TypeByte(m), flags]
                  + (if large then [n / 16777216, n / 65536 % 256, n / 256 % 256, n % 256] else [n / 256, n % 256]) + wire
  {
    hide Payload, TypeByte;
  }

  lemma ChunkPayload(index: U32, total: U32, data: Text)
    requires |data| <= 4194304
    ensures var m := FileChunk(index, total, data);
            Payload(m).Some? && |Payload(m).value| == 12 + |data|
  {
    var m := FileChunk(index, total, data);
    assert Fields(m) == [U32(index), U32(total), Blob(data)] && Items(m) == [] && !Oversize(m);
    assert [U32(index), U32(total), Blob(data)][1..] == [U32(total), Blob(data)];
    assert [U32(total), Blob(data)][1..] == [Blob(data)] && [Blob(data)][1..] == [];
    EncStep([U32(index), U32(total), Blob(data)]);
    EncStep([U32(total), Blob(data)]);
    EncStep([Blob(data)]);
    assert EncItems([]) == Some([]);
    hide EncAll, EncItems;
  }

  /** A peer with the capability gets file chunks up to 4 MiB less twelve bytes, whenever zstd does its work. */
  lemma ChunksAreEncoded(z: Zstd, index: U32, total: U32, data: Text, streamId: U16)
    requires |data| <= 4194292
    requires forall s :: |s| <= 4194304 ==> z.compress(s).Some? && |z.compress(s).value| <= 4194304
    ensures Encode(z, FileChunk(index, total, data), streamId, true).Some?
  {
    hide Payload, Encode, Writable;
    ChunkPayload(index, total, data);
    WrittenIff(FileChunk(index, total, data));
    EncodedIff(z, FileChunk(index, total, data), streamId, true);
  }

  // ── Round trip ────────────────────────────────────────────────────────────────

  lemma DecodeParts(z: Zstd, h: seq<Byte>, wire: seq<Byte>, tail: seq<Byte>, payload: seq<Byte>)
    requires |h| >= 6 && FrameHeaderLayout(h + (wire + tail)) == Some((|h|, |wire|))
    requires if Has((h + (wire + tail))[3], FLAG_COMPRESSED) then wire != [] && z.decompress(wire) == Some(payload) else wire == payload
    requires |payload| <= MAX_PAYLOAD_U32
    ensures Decode(z, h + (wire + tail)) == DecodePayload((h + (wire + tail))[2] as int, payload)
  {
    hide FrameHeaderLayout, Has, DecodePayload;
    var s := h + (wire + tail);
    assert s[|h|..|h| + |wire|] == wire;
  }

  /** A frame without a payload is never decompressed, whatever its flags say. */
  lemma NothingIsNotUnpacked(z: Zstd, raw: seq<Byte>)
    requires |raw| >= 6 && FrameHeaderLayout(raw).Some? && FrameHeaderLayout(raw).value.1 == 0 && FrameHeaderLayout(raw).value.0 <= |raw|
    ensures Decode(z, raw) == DecodePayload(raw[2] as int, [])
  {
    hide FrameHeaderLayout, Has, DecodePayload;
    var header := FrameHeaderLayout(raw).value.0;
    assert raw[header..header + 0] == [];
  }

  lemma Unpacks(z: Zstd, payload: seq<Byte>)
    requires Lossless(z) && |payload| <= MAX_PAYLOAD_U32 && z.compress(payload).Some?
    ensures z.compress(payload).value != [] && z.decompress(z.compress(payload).value) == Some(payload)
  {
  }

  /** Decoding a frame, with anything behind it, decodes the payload that was encoded. */
  lemma FrameCarriesPayload(z: Zstd, m: Message, streamId: U16, allowLarge: bool, tail: seq<Byte>)
    requires Lossless(z) && Encode(z, m, streamId, allowLarge).Some?
    ensures Payload(m).Some? && |Payload(m).value| <= MAX_PAYLOAD_U32
    ensures Decode(z, Encode(z, m, streamId, allowLarge).value + tail) == DecodePayload(TypeByte(m) as int, Payload(m).value)
  {
    hide Payload, FrameHeaderLayout, Has, Flags, ReadU16, Header, DecodePayload, TypeByte, Lossless, Decode;
    var payload := Payload(m).value;
    var compress := |payload| > COMPRESSION_THRESHOLD;
    if compress { Unpacks(z, payload); }
    var wire := if compress then z.compress(payload).value else payload;
    var large := allowLarge && |wire| > MAX_PAYLOAD_U16;
    HeaderSays(m, streamId, compress, large, |wire|, wire + tail);
    FlagsSay(compress, streamId == 0, large);
    var h := Header(m, streamId, compress, large, |wire|);
    assert h + wire + tail == h + (wire + tail);
    DecodeParts(z, h, wire, tail, payload);
  }

  /** Every message but ServerInfo that encode accepts comes back from its frame, as Canon has it; a batch of
      more than 512 is refused. */
  lemma FrameRoundTrip(z: Zstd, m: Message, streamId: U16, allowLarge: bool, tail: seq<Byte>)
    requires Lossless(z) && !m.ServerInfo? && Encode(z, m, streamId, allowLarge).Some?
    ensures Decode(z, Encode(z, m, streamId, allowLarge).value + tail)
         == if m.ConversationBatch? && |m.messages| > 512 then None else Some(Canon(m))
  {
    hide Encode, Decode, Payload, DecodePayload, Canon, TypeByte, Lossless;
    FrameCarriesPayload(z, m, streamId, allowLarge, tail);
    PayloadRoundTrip(m);
  }

  /** ServerInfo comes back exactly under the condition of its payload. */
  lemma ServerInfoFrameRoundTripIff(z: Zstd, m: Message, streamId: U16, allowLarge: bool, tail: seq<Byte>)
    requires Lossless(z) && m.ServerInfo? && Encode(z, m, streamId, allowLarge).Some?
    ensures Payload(m).Some?
    ensures Decode(z, Encode(z, m, streamId, allowLarge).value + tail) == Some(m)
       <==> Newlines(Payload(m).value) < 2 && (m.hostStats == [] ==> m.latency == [])
  {
    hide Encode, Decode, Payload, DecodePayload, TypeByte, Lossless, Newlines;
    FrameCarriesPayload(z, m, streamId, allowLarge, tail);
    ServerInfoRoundTripIff(m);
  }

  // ── Streams of frames ─────────────────────────────────────────────────────────

  /** Cutting a byte stream into its frames with nothing but frame_header_layout. */
  function Split(s: seq<Byte>): Option<seq<seq<Byte>>>
    decreases |s|
  {
    if s == [] then Some([])
    else
      var layout :- FrameHeaderLayout(s);
      var end := layout.0 + layout.1;
      if |s| < end || end == 0 then None
      else
        var rest :- Split(s[end..]);
        Some([s[..end]] + rest)
  }

  /** Any frames that encode made, one after the other, are told apart again. */
  lemma {:induction false} StreamSplits(z: Zstd, ms: seq<(Message, U16, bool)>, frames: seq<seq<Byte>>)
    requires |frames| == |ms|
    requires forall i :: 0 <= i < |ms| ==> Encode(z, ms[i].0, ms[i].1, ms[i].2) == Some(frames[i])
    ensures Split(Concat(frames)) == Some(frames)
    decreases |ms|
  {
    hide Encode, FrameHeaderLayout, Has, TypeByte;
    if ms != [] {
      var (f, rest) := (frames[0], Concat(frames[1..]));
      assert Encode(z, ms[0].0, ms[0].1, ms[0].2) == Some(f);
      FrameIsSelfDelimiting(z, ms[0].0, ms[0].1, ms[0].2, rest);
      assert (f + rest)[|f|..] == rest && (f + rest)[..|f|] == f;
      StreamSplits(z, ms[1..], frames[1..]);
      assert [f] + frames[1..] == frames;
    }
  }
}
