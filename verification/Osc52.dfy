/** The OSC 52 clipboard scanner of bs-osc52.h: clipboard sequences leave the terminal stream and
    their payload is decoded; everything else passes through. */
module Osc52 {
  import opened Bytes
  import opened Base64
  import opened Sequences

  const ESC := '\U{001B}'
  const BEL := '\U{0007}'

  // ── The digits of a clipboard body ────────────────────────────────────────────

  /** Digits before the first '=', with every other character skipped. */
  function BodySextets(s: string): seq<Sextet> {
    if s == "" || s[0] == '=' then []
    else if Rev(s[0]) < 0 then BodySextets(s[1..])
    else [Rev(s[0])] + BodySextets(s[1..])
  }

  /** What a body "Pc;<base64>" puts on the clipboard: None without a semicolon or after one that
      nothing follows. */
  function BodyPayload(body: string): Option<seq<Byte>> {
    var semicolon := Find(body, ';', 0);
    if semicolon.None? || semicolon.value + 1 == |body| then None
    else Some(Decoded(BodySextets(body[semicolon.value + 1..])))
  }

  /** decode_osc52_body: `acc &= (1 << bits) - 1` keeps only the pending bits, so the accumulator
      stays below 2^12 and no sign bit is ever reached. */
  method DecodeBody(body: string) returns (payload: Option<seq<Byte>>)
    ensures payload == BodyPayload(body)
  {
    hide FeedAll, Feed;
    var semicolon := Find(body, ';', 0);
    if semicolon.None? { return None; }
    var b64 := body[semicolon.value + 1..];
    if |b64| == 0 { return None; }
    var result: seq<Byte> := [];
    var acc, bits := 0, 0;
    var i := 0;
    assert b64[0..] == b64;
    while i < |b64|
      invariant i <= |b64| && bits in {0, 2, 4, 6} && 0 <= acc < Pow2(bits)
      invariant FeedAll(Acc(acc, bits, result), BodySextets(b64[i..])) == FeedAll(Start, BodySextets(b64))
    {
      var c := b64[i];
      assert b64[i..][0] == c && b64[i..][1..] == b64[i + 1..];
      if c == '=' {
        assert BodySextets(b64[i..]) == [];
        break;
      }
      var v := Rev(c);
      if v >= 0 {
        FeedNext(Acc(acc, bits, result), BodySextets(b64[i..]));
        assert BodySextets(b64[i..])[1..] == BodySextets(b64[i + 1..]);
        MaskIsFeed(acc, bits, result, v);
        acc := acc * 64 + v;
        assert acc < 0x1000;
        bits := bits + 6;
        if bits >= 8 {
          bits := bits - 8;
          result := result + [acc / Pow2(bits)];
          acc := acc % Pow2(bits);
        }
      }
      i := i + 1;
    }
    if i == |b64| { assert b64[i..] == ""; }
    FeedNone(Acc(acc, bits, result));
    return Some(result);
  }

  lemma MaskIsFeed(acc: nat, bits: nat, out: seq<Byte>, v: Sextet)
    requires bits in {0, 2, 4, 6} && acc < Pow2(bits)
    ensures var p := acc * 64 + v;
            p < 0x1000 && (bits > 0 ==> 0 <= p / Pow2(bits - 2) < 256 && 0 <= p % Pow2(bits - 2) < Pow2(bits - 2)) &&
            Feed(Acc(acc, bits, out), v)
              == if bits == 0 then Acc(p, 6, out) else Acc(p % Pow2(bits - 2), bits - 2, out + [p / Pow2(bits - 2)])
  {
  }

  // ── The scanner ───────────────────────────────────────────────────────────────

  predicate TerminatorAt(s: string, i: nat) {
    i < |s| && (s[i] == BEL || (s[i] == ESC && i + 1 < |s| && s[i + 1] == '\\'))
  }

  /** find_osc_end: the first terminator at or after start, -1 when there is none. */
  method FindOscEnd(s: string, start: nat) returns (end: int)
    ensures end == OscEnd(s, start)
  {
    var i := start;
    while i < |s|
      invariant OscEnd(s, i) == OscEnd(s, start)
    {
      if s[i] == BEL { return i; }
      if s[i] == ESC && i + 1 < |s| && s[i + 1] == '\\' { return i; }
      i := i + 1;
    }
    return -1;
  }

  function OscEnd(s: string, start: nat): (end: int)
    ensures end == -1 ==> forall i :: start <= i < |s| ==> !TerminatorAt(s, i)
    ensures end != -1 ==> start <= end && TerminatorAt(s, end) && forall i :: start <= i < end ==> !TerminatorAt(s, i)
    decreases |s| - start
  {
    if start >= |s| then -1
    else if TerminatorAt(s, start) then start
    else OscEnd(s, start + 1)
  }

  predicate Osc52At(s: string, i: nat) {
    i + 4 < |s| && s[i] == ESC && s[i + 1] == ']' && s[i + 2] == '5' && s[i + 3] == '2' && s[i + 4] == ';'
  }

  /** Just past the terminator that starts at end: one character for BEL, two for ESC backslash. */
  function PastTerminator(s: string, end: nat): nat
    requires TerminatorAt(s, end)
  {
    if s[end] == BEL then end + 1 else end + 2
  }

  datatype Scanned = Scanned(text: string, clipboard: Option<seq<Byte>>)

  /** The scan from position i on; a later clipboard payload replaces an earlier one. */
  function ScanFrom(s: string, i: nat): Scanned
    requires i <= |s|
    decreases |s| - i
  {
    if i == |s| then Scanned("", None)
    else if Osc52At(s, i) && OscEnd(s, i + 5) >= 0 then
      var end := OscEnd(s, i + 5);
      var payload := BodyPayload(s[i + 5..end]);
      var rest := ScanFrom(s, PastTerminator(s, end));
      if rest.clipboard.None? && payload.Some? && payload.value != [] then rest.(clipboard := payload) else rest
    else
      var rest := ScanFrom(s, i + 1);
      rest.(text := [s[i]] + rest.text)
  }

  /** Text first read, then what the rest of the scan adds. */
  function Extended(text: string, clipboard: Option<seq<Byte>>, rest: Scanned): Scanned {
    Scanned(text + rest.text, if rest.clipboard.Some? then rest.clipboard else clipboard)
  }

  /** scan_osc52. */
  method ScanOsc52(s: string) returns (cleaned: string, clipboard: Option<seq<Byte>>)
    ensures Scanned(cleaned, clipboard) == ScanFrom(s, 0)
  {
    hide BodyPayload, OscEnd, ScanFrom, Extended;
    ExtendedEnds(ScanFrom(s, 0));
    cleaned, clipboard := "", None;
    var pos := 0;
    while pos < |s|
      invariant pos <= |s|
      invariant Extended(cleaned, clipboard, ScanFrom(s, pos)) == ScanFrom(s, 0)
      decreases |s| - pos
    {
      if s[pos] == ESC && pos + 1 < |s| && s[pos + 1] == ']' {
        var afterEsc := pos + 2;
        if afterEsc + 2 < |s| && s[afterEsc] == '5' && s[afterEsc + 1] == '2' && s[afterEsc + 2] == ';' {
          var end := FindOscEnd(s, afterEsc + 3);
          if end >= 0 {
            ScanAt(s, pos);
            var decoded := DecodeBody(s[afterEsc + 3..end]);
            ghost var payload := if decoded.Some? && decoded.value != [] then decoded else None;
            ExtendedTwice(cleaned, clipboard, "", payload, ScanFrom(s, PastTerminator(s, end)));
            assert cleaned + "" == cleaned;
            if decoded.Some? && decoded.value != [] { clipboard := decoded; }
            pos := end;
            if s[pos] == ESC && pos + 1 < |s| && s[pos + 1] == '\\' {
              pos := pos + 2;
            } else if s[pos] == BEL {
              pos := pos + 1;
            }
            continue;
          }
        }
      }
      ScanOther(s, pos);
      ExtendedTwice(cleaned, clipboard, [s[pos]], None, ScanFrom(s, pos + 1));
      cleaned := cleaned + [s[pos]];
      pos := pos + 1;
    }
    ScanEnd(s);
    ExtendedEnds(Scanned(cleaned, clipboard));
  }

  lemma ExtendedEnds(r: Scanned)
    ensures Extended("", None, r) == r
    ensures Extended(r.text, r.clipboard, Scanned("", None)) == r
  {
    assert "" + r.text == r.text && r.text + "" == r.text;
  }

  lemma ExtendedTwice(text: string, clipboard: Option<seq<Byte>>, t: string, c: Option<seq<Byte>>, rest: Scanned)
    ensures Extended(text, clipboard, Extended(t, c, rest))
         == Extended(text + t, if c.Some? then c else clipboard, rest)
  {
    assert text + (t + rest.text) == (text + t) + rest.text;
  }

  lemma ScanEnd(s: string)
    ensures ScanFrom(s, |s|) == Scanned("", None)
  {
  }

  // ── Streams made of text and complete sequences ───────────────────────────────

  /** A piece of terminal output: plain text, or a program setting the clipboard. */
  datatype Item =
    | Text(s: string)
    | SetClipboard(selector: string, data: seq<Byte>, padded: bool, belEnded: bool)
  {
    predicate WellFormed() {
      match this
      case Text(s) => '\U{001B}' !in s
      case SetClipboard(sel, _, _, _) => '\U{001B}' !in sel && '\U{0007}' !in sel && ';' !in sel
    }

    function Body(): string
      requires SetClipboard?
    {
      selector + ";" + if padded then Padded(data) else Unpadded(data)
    }

    function Render(): string {
      match this
      case Text(s) => s
      case SetClipboard(_, _, _, bel) => ['\U{001B}', ']', '5', '2', ';'] + Body() + if bel then ['\U{0007}'] else ['\U{001B}', '\\']
    }
  }

  function Stream(items: seq<Item>): string {
    if items == [] then "" else items[0].Render() + Stream(items[1..])
  }

  function TextOf(items: seq<Item>): string {
    if items == [] then "" else (if items[0].Text? then items[0].s else "") + TextOf(items[1..])
  }

  /** The last payload that is not empty. */
  function ClipboardOf(items: seq<Item>): Option<seq<Byte>> {
    if items == [] then None
    else if ClipboardOf(items[1..]).Some? then ClipboardOf(items[1..])
    else if items[0].SetClipboard? && items[0].data != [] then Some(items[0].data)
    else None
  }

  /** Reading digits back: exactly the sextets, whether '=' or nothing follows. */
  lemma {:induction false} BodySextetsOfDigits(vs: seq<Sextet>, pad: string)
    requires pad == "" || pad[0] == '='
    ensures BodySextets(Digits(vs) + pad) == vs
  {
    var s := Digits(vs) + pad;
    if vs == [] {
      assert s == pad;
    } else {
      RevOfDigit(vs[0]);
      assert s[0] == Digit(vs[0]);
      assert s[1..] == Digits(vs[1..]) + pad;
      BodySextetsOfDigits(vs[1..], pad);
    }
  }

  /** decode_osc52_body undoes both base64 coders, under any selector; an empty payload reads as no
      payload at all. */
  lemma BodyRoundTrip(selector: string, d: seq<Byte>, padded: bool)
    requires ';' !in selector
    ensures var body := SetClipboard(selector, d, padded, true).Body();
            BodyPayload(body) == if d == [] then None else Some(d)
  {
    hide Sextets;
    var body := SetClipboard(selector, d, padded, true).Body();
    var b64 := if padded then Padded(d) else Unpadded(d);
    FindInBody(selector, b64);
    SextetsCount(d);
    BodySextetsOfDigits(Sextets(d), if padded then Pad(|d|) else "");
    assert Unpadded(d) + "" == Unpadded(d);
    DecodeSextets(d, []);
    assert [] + d == d;
    assert body[|selector| + 1..] == b64;
    assert BodySextets(b64) == Sextets(d);
    assert |body| == |selector| + 1 + |b64|;
    assert b64 == "" <==> d == [];
  }

  lemma {:induction false} FindInBody(selector: string, b64: string)
    requires ';' !in selector
    ensures Find(selector + ";" + b64, ';', 0) == Some(|selector|)
  {
    var body := selector + ";" + b64;
    if selector != "" {
      assert body[1..] == selector[1..] + ";" + b64;
      FindInBody(selector[1..], b64);
    }
  }

  lemma {:induction false} DigitsArePlain(vs: seq<Sextet>)
    ensures forall c :: c in Digits(vs) ==> c != ESC && c != BEL
  {
    forall i | 0 <= i < |vs| ensures Digits(vs)[i] != ESC && Digits(vs)[i] != BEL {
    }
  }

  lemma BodyIsPlain(item: Item)
    requires item.SetClipboard? && item.WellFormed()
    ensures forall c :: c in item.Body() ==> c != ESC && c != BEL
  {
    DigitsArePlain(Sextets(item.data));
    PadIsPlain(|item.data|);
    hide Digits, Sextets, Pad;
    var digits := Unpadded(item.data);
    var tail := if item.padded then Padded(item.data) else digits;
    forall c | c in tail ensures c != ESC && c != BEL {
      assert c in digits || c in Pad(|item.data|);
    }
    assert item.Body() == item.selector + ([';'] + tail);
  }

  lemma PadIsPlain(n: nat)
    ensures forall c :: c in Pad(n) ==> c == '='
  {
  }

  lemma {:induction false} OscEndIs(s: string, start: nat, end: nat)
    requires start <= end && TerminatorAt(s, end)
    requires forall i :: start <= i < end ==> s[i] != ESC && s[i] != BEL
    ensures OscEnd(s, start) == end
  {
  }

  lemma ScanPlain(s: string, i: nat)
    requires i < |s| && s[i] != ESC
    ensures ScanFrom(s, i) == Extended([s[i]], None, ScanFrom(s, i + 1))
  {
    hide OscEnd, BodyPayload;
  }

  lemma OneMore(s: string, i: nat, n: nat)
    requires n > 0 && i + n <= |s|
    ensures s[i..i + n] == [s[i]] + s[i + 1..i + n] && s[i..i + n][0] == s[i]
    ensures ESC !in s[i..i + n] ==> s[i] != ESC && ESC !in s[i + 1..i + n]
  {
    assert s[i] in s[i..i + n];
  }

  /** Text without ESC passes through. */
  lemma {:induction false} ScanText(s: string, i: nat, n: nat)
    requires i + n <= |s| && ESC !in s[i..i + n]
    ensures ScanFrom(s, i) == Extended(s[i..i + n], None, ScanFrom(s, i + n))
    decreases n
  {
    hide ScanFrom;
    if n > 0 {
      OneMore(s, i, n);
      ScanPlain(s, i);
      ScanText(s, i + 1, n - 1);
      assert [s[i]] + (s[i + 1..i + n] + ScanFrom(s, i + n).text) == s[i..i + n] + ScanFrom(s, i + n).text;
    } else {
      assert s[i..i + n] == "";
      assert "" + ScanFrom(s, i).text == ScanFrom(s, i).text;
    }
  }

  /** The text r stands in s at position i. */
  ghost predicate At(s: string, i: nat, r: string) {
    i + |r| <= |s| && s[i..i + |r|] == r
  }

  lemma AtSplit(s: string, i: nat, a: string, b: string)
    requires At(s, i, a + b)
    ensures At(s, i, a) && At(s, i + |a|, b)
  {
    var t := s[i..i + |a + b|];
    assert t[..|a|] == a && t[|a|..] == b;
  }

  lemma IntroducerAt(s: string, i: nat)
    requires At(s, i, [ESC, ']', '5', '2', ';']) && i + 5 < |s|
    ensures Osc52At(s, i)
  {
    var t := s[i..i + 5];
    assert s[i] == t[0] && s[i + 1] == t[1] && s[i + 2] == t[2] && s[i + 3] == t[3] && s[i + 4] == t[4];
  }

  lemma EndingAt(s: string, end: nat, bel: bool)
    requires At(s, end, if bel then [BEL] else [ESC, '\\'])
    ensures TerminatorAt(s, end) && PastTerminator(s, end) == end + if bel then 1 else 2
  {
    if bel {
      assert s[end] == s[end..end + 1][0];
    } else {
      assert s[end] == s[end..end + 2][0] && s[end + 1] == s[end..end + 2][1];
    }
  }

  lemma FirstTerminator(s: string, start: nat, body: string)
    requires At(s, start, body) && TerminatorAt(s, start + |body|)
    requires forall c :: c in body ==> c != ESC && c != BEL
    ensures OscEnd(s, start) == start + |body|
  {
    forall k | start <= k < start + |body| ensures s[k] != ESC && s[k] != BEL {
      assert s[k] == s[start..start + |body|][k - start];
      assert s[k] in body;
    }
    OscEndIs(s, start, start + |body|);
  }

  /** The scanner's view of a sequence with body `body`. */
  lemma SequenceAt(s: string, i: nat, body: string, bel: bool)
    requires At(s, i, [ESC, ']', '5', '2', ';'] + (body + if bel then [BEL] else [ESC, '\\']))
    requires forall c :: c in body ==> c != ESC && c != BEL
    ensures var end := i + 5 + |body|;
            end < |s| && Osc52At(s, i) && OscEnd(s, i + 5) == end && s[i + 5..end] == body &&
            TerminatorAt(s, end) && PastTerminator(s, end) == end + if bel then 1 else 2
  {
    hide *;
    var intro, tail := [ESC, ']', '5', '2', ';'], if bel then [BEL] else [ESC, '\\'];
    AtSplit(s, i, intro, body + tail);
    AtSplit(s, i + 5, body, tail);
    var end := i + 5 + |body|;
    EndingAt(s, end, bel);
    TerminatorInside(s, end);
    IntroducerAt(s, i);
    FirstTerminator(s, i + 5, body);
    BodySliceAt(s, i + 5, body);
  }

  lemma AtFits(s: string, i: nat, t: string)
    requires At(s, i, t)
    ensures i + |t| <= |s|
  {
  }

  /** One complete sequence leaves nothing but its payload. */
  lemma ScanSequence(s: string, i: nat, item: Item)
    requires item.SetClipboard? && item.WellFormed()
    requires At(s, i, item.Render())
    ensures i + |item.Render()| <= |s|
    ensures ScanFrom(s, i)
         == Extended("", if item.data == [] then None else Some(item.data), ScanFrom(s, i + |item.Render()|))
  {
    hide *;
    AtFits(s, i, item.Render());
    SelectorIsPlain(item);
    BodyIsPlain(item);
    BodyRoundTrip(item.selector, item.data, item.padded);
    BodyIgnoresEnding(item);
    var body := item.Body();
    RenderIs(item, body);
    SequenceAt(s, i, body, item.belEnded);
    ScanAt(s, i);
  }

  lemma SelectorIsPlain(item: Item)
    requires item.SetClipboard? && item.WellFormed()
    ensures ';' !in item.selector
  {
  }

  lemma RenderIs(item: Item, body: string)
    requires item.SetClipboard? && body == item.Body()
    ensures item.Render() == [ESC, ']', '5', '2', ';'] + (body + if item.belEnded then [BEL] else [ESC, '\\'])
    ensures |item.Render()| == 5 + |body| + if item.belEnded then 1 else 2
  {
    hide Item.Body;
    var tail := if item.belEnded then [BEL] else [ESC, '\\'];
    var intro := [ESC, ']', '5', '2', ';'];
    assert intro + body + tail == intro + (body + tail);
  }

  lemma TerminatorInside(s: string, end: nat)
    requires TerminatorAt(s, end)
    ensures end < |s|
  {
  }

  lemma BodySliceAt(s: string, i: nat, body: string)
    requires At(s, i, body)
    ensures i + |body| <= |s| && s[i..i + |body|] == body
  {
  }

  lemma BodyIgnoresEnding(item: Item)
    requires item.SetClipboard?
    ensures item.Body() == SetClipboard(item.selector, item.data, item.padded, true).Body()
  {
  }

  lemma ScanAt(s: string, i: nat)
    requires Osc52At(s, i) && OscEnd(s, i + 5) >= 0
    ensures var end := OscEnd(s, i + 5);
            var payload := BodyPayload(s[i + 5..end]);
            ScanFrom(s, i) == Extended("", if payload.Some? && payload.value != [] then payload else None,
                                       ScanFrom(s, PastTerminator(s, end)))
  {
    hide BodyPayload;
  }

  lemma ScanOther(s: string, i: nat)
    requires i < |s| && !(Osc52At(s, i) && OscEnd(s, i + 5) >= 0)
    ensures ScanFrom(s, i) == Extended([s[i]], None, ScanFrom(s, i + 1))
  {
    hide BodyPayload;
  }

  lemma TextRender(item: Item)
    requires item.Text? && item.WellFormed()
    ensures item.Render() == item.s && ESC !in item.s
  {
  }

  lemma PieceAt(s: string, i: nat, r: string, rest: string)
    requires i <= |s| && s[i..] == r + rest
    ensures At(s, i, r) && i + |r| <= |s| && s[i + |r|..] == rest
  {
    assert s[i..][..|r|] == r && s[i..][|r|..] == rest;
    assert |s[i..]| == |r| + |rest|;
    assert s[i..i + |r|] == s[i..][..|r|];
    assert s[i + |r|..] == s[i..][|r|..];
  }

  lemma {:induction false} ScanStreamFrom(s: string, i: nat, items: seq<Item>)
    requires i <= |s| && s[i..] == Stream(items)
    requires forall k :: 0 <= k < |items| ==> items[k].WellFormed()
    ensures ScanFrom(s, i) == Scanned(TextOf(items), ClipboardOf(items))
    decreases |items|
  {
    hide ScanFrom, Item.Render, At;
    if items == [] {
      assert i == |s|;
      ScanEnd(s);
    } else {
      var r := items[0].Render();
      PieceAt(s, i, r, Stream(items[1..]));
      ScanStreamFrom(s, i + |r|, items[1..]);
      if items[0].Text? {
        TextRender(items[0]);
        BodySliceAt(s, i, r);
        ScanText(s, i, |r|);
      } else {
        ScanSequence(s, i, items[0]);
        assert "" + TextOf(items[1..]) == TextOf(items[1..]);
      }
    }
  }

  /** The promise of the scanner: exactly the text comes out, and exactly the last non-empty
      clipboard payload. */
  lemma ScanStream(items: seq<Item>)
    requires forall k :: 0 <= k < |items| ==> items[k].WellFormed()
    ensures ScanFrom(Stream(items), 0) == Scanned(TextOf(items), ClipboardOf(items))
  {
    var s := Stream(items);
    assert s[0..] == s;
    ScanStreamFrom(s, 0, items);
  }

  /** An unterminated sequence is left in the stream, whole. */
  lemma ScanUnterminated(s: string)
    requires forall i :: 0 <= i < |s| ==> !TerminatorAt(s, i)
    ensures ScanFrom(s, 0) == Scanned(s, None)
  {
    assert s[0..] == s;
    ScanUnterminatedFrom(s, 0);
  }

  lemma {:induction false} ScanUnterminatedFrom(s: string, i: nat)
    requires i <= |s| && forall k :: 0 <= k < |s| ==> !TerminatorAt(s, k)
    ensures ScanFrom(s, i) == Scanned(s[i..], None)
    decreases |s| - i
  {
    if i < |s| {
      ScanUnterminatedFrom(s, i + 1);
      assert s[i..] == [s[i]] + s[i + 1..];
    }
  }

  // ── Scanning twice ────────────────────────────────────────────────────────────

  /** A complete sequence starts at position k. */
  predicate CompleteAt(s: string, k: nat) {
    Osc52At(s, k) && OscEnd(s, k + 5) >= 0
  }

  lemma {:induction false} ScanNeverGrows(s: string, i: nat)
    requires i <= |s|
    ensures |ScanFrom(s, i).text| <= |s| - i
    decreases |s| - i
  {
    hide BodyPayload;
    if i < |s| {
      if CompleteAt(s, i) { ScanNeverGrows(s, PastTerminator(s, OscEnd(s, i + 5))); } else { ScanNeverGrows(s, i + 1); }
    }
  }

  lemma {:induction false} ScanKeepsAllFrom(s: string, i: nat)
    requires i <= |s|
    ensures ScanFrom(s, i) == Scanned(s[i..], None) <==> forall k: nat :: i <= k < |s| ==> !CompleteAt(s, k)
    decreases |s| - i
  {
    hide BodyPayload, OscEnd, ScanFrom;
    if i == |s| {
      ScanEnd(s);
    } else if CompleteAt(s, i) {
      ScanAt(s, i);
      ScanNeverGrows(s, PastTerminator(s, OscEnd(s, i + 5)));
      assert |s[i..]| == |s| - i;
    } else {
      ScanOther(s, i);
      ScanKeepsAllFrom(s, i + 1);
      assert s[i..] == [s[i]] + s[i + 1..];
      if ScanFrom(s, i) == Scanned(s[i..], None) { assert s[i..][1..] == ScanFrom(s, i + 1).text; }
    }
  }

  /** A text passes unchanged exactly if no complete sequence starts anywhere in it. */
  lemma ScanKeepsAllIff(s: string)
    ensures ScanFrom(s, 0) == Scanned(s, None) <==> forall k: nat :: !CompleteAt(s, k)
  {
    ScanKeepsAllFrom(s, 0);
    assert s[0..] == s;
    assert forall k: nat :: k >= |s| ==> !CompleteAt(s, k);
  }

  /** The stretches of text that a scan from position i keeps, one more than sequences it removes. */
  function Kept(s: string, i: nat): (r: seq<string>)
    requires i <= |s|
    ensures r != []
    decreases |s| - i
  {
    if i == |s| then [""]
    else if CompleteAt(s, i) then [""] + Kept(s, PastTerminator(s, OscEnd(s, i + 5)))
    else
      var r := Kept(s, i + 1);
      [[s[i]] + r[0]] + r[1..]
  }

  lemma ConcatFirst(first: string, rest: seq<string>)
    ensures Concat([first] + rest) == first + Concat(rest)
  {
    assert ([first] + rest)[1..] == rest;
  }

  lemma {:induction false} KeptIsText(s: string, i: nat)
    requires i <= |s|
    ensures Concat(Kept(s, i)) == ScanFrom(s, i).text
    decreases |s| - i
  {
    hide BodyPayload, OscEnd, ScanFrom, Concat;
    if i == |s| {
      ScanEnd(s);
      ConcatFirst("", []);
      ConcatNone();
      assert Kept(s, i) == [""] + [];
    } else if CompleteAt(s, i) {
      ScanAt(s, i);
      KeptIsText(s, PastTerminator(s, OscEnd(s, i + 5)));
      ConcatFirst("", Kept(s, PastTerminator(s, OscEnd(s, i + 5))));
    } else {
      ScanOther(s, i);
      KeptIsText(s, i + 1);
      var r := Kept(s, i + 1);
      assert r == [r[0]] + r[1..];
      ConcatFirst(r[0], r[1..]);
      ConcatFirst([s[i]] + r[0], r[1..]);
      assert [s[i]] + r[0] + Concat(r[1..]) == [s[i]] + (r[0] + Concat(r[1..]));
    }
  }

  lemma ConcatNone()
    ensures Concat<char>([]) == ""
  {
  }

  const INTRODUCER: string := ['\U{001B}', ']', '5', '2', ';']

  /** Where sequence j was removed, the text kept before it ends with the first m characters of an
      introducer and the text kept after it goes on with the others; and a terminator follows them. */
  predicate Completes(before: string, after: string, m: nat) {
    && 1 <= m <= 4 && |before| >= m && |after| >= 5 - m
    && before[|before| - m..] == INTRODUCER[..m] && after[..5 - m] == INTRODUCER[m..]
    && OscEnd(after, 5 - m) >= 0
  }

  ghost predicate SomeSeamCompletes(runs: seq<string>) {
    exists j: nat, m: nat :: j < |runs| && Completes(Concat(runs[..j]), Concat(runs[j..]), m)
  }

  /** The place of seam j in the kept text. */
  function SeamAt(runs: seq<string>, j: nat): nat
    requires j <= |runs|
  {
    |Concat(runs[..j])|
  }

  lemma {:induction false} ConcatSplit(runs: seq<string>, j: nat)
    requires j <= |runs|
    ensures Concat(runs) == Concat(runs[..j]) + Concat(runs[j..])
  {
    if j == 0 {
      assert runs[0..] == runs;
    } else {
      ConcatSplit(runs[1..], j - 1);
      assert runs[..j] == [runs[0]] + runs[1..][..j - 1] && runs[1..][j - 1..] == runs[j..];
      ConcatFirst(runs[0], runs[1..][..j - 1]);
      hide Concat;
      var (a, b) := (Concat(runs[1..][..j - 1]), Concat(runs[j..]));
      assert runs[0] + (a + b) == runs[0] + a + b;
    }
  }

  lemma {:induction false} OscEndIgnoresStart(a: string, b: string, i: nat)
    ensures OscEnd(a + b, |a| + i) >= 0 <==> OscEnd(b, i) >= 0
    decreases |b| - i
  {
    if i < |b| {
      assert (a + b)[|a| + i] == b[i];
      assert TerminatorAt(a + b, |a| + i) == TerminatorAt(b, i);
      OscEndIgnoresStart(a, b, i + 1);
    }
  }

  /** A completed seam is a complete sequence of the kept text, and the other way round. */
  lemma SeamIsSequence(before: string, after: string, m: nat)
    requires 1 <= m <= 4 && m <= |before|
    ensures Completes(before, after, m) <==> CompleteAt(before + after, |before| - m)
  {
    var (t, k) := (before + after, |before| - m);
    if |after| >= 5 - m {
      OscEndIgnoresStart(before, after, 5 - m);
      assert k + 5 == |before| + (5 - m);
      hide OscEnd;
      var (x, y) := (before[k..], after[..5 - m]);
      assert x + y == t[k..k + 5];
      assert INTRODUCER == INTRODUCER[..m] + INTRODUCER[m..];
      IntroducerIs(t, k);
      if t[k..k + 5] == INTRODUCER {
        assert x == t[k..k + 5][..m] && y == t[k..k + 5][m..];
      }
    } else {
      assert |t| < k + 5;
    }
  }

  lemma IntroducerIs(s: string, k: nat)
    requires k + 5 <= |s|
    ensures s[k..k + 5] == INTRODUCER && k + 5 < |s| ==> Osc52At(s, k)
    ensures Osc52At(s, k) ==> s[k..k + 5] == INTRODUCER
  {
    var t := s[k..k + 5];
    assert t[0] == s[k] && t[1] == s[k + 1] && t[2] == s[k + 2] && t[3] == s[k + 3] && t[4] == s[k + 4];
  }
  /** The first stretch is contiguous in the input, and what follows it there is the first sequence. */
  lemma {:induction false} FirstStretch(s: string, i: nat)
    requires i <= |s|
    ensures var runs := Kept(s, i);
            && i + |runs[0]| <= |s| && s[i..i + |runs[0]|] == runs[0]
            && (|runs| == 1 ==> i + |runs[0]| == |s|)
            && (|runs| > 1 ==> CompleteAt(s, i + |runs[0]|))
    decreases |s| - i
  {
    hide OscEnd, Osc52At, CompleteAt;
    if i < |s| && !CompleteAt(s, i) {
      FirstStretch(s, i + 1);
      var r := Kept(s, i + 1);
      assert s[i..i + 1 + |r[0]|] == [s[i]] + s[i + 1..i + 1 + |r[0]|];
    }
  }

  lemma LaterEnd(s: string, i: nat, p: nat)
    requires i <= p && OscEnd(s, p) >= 0
    ensures OscEnd(s, i) >= 0
  {
    assert TerminatorAt(s, OscEnd(s, p));
  }

  lemma WholeStretch(s: string, i: nat)
    requires i <= |s| && |Kept(s, i)| == 1
    ensures Concat(Kept(s, i)) == s[i..]
  {
    FirstStretch(s, i);
    var runs := Kept(s, i);
    assert runs == [runs[0]] + [];
    ConcatFirst(runs[0], []);
    ConcatNone();
    assert runs[0] + "" == runs[0];
  }

  lemma LongStretch(s: string, i: nat)
    requires i <= |s| && |Kept(s, i)| > 1 && |Kept(s, i)[0]| >= 5
    ensures i + 5 < |s| && |Concat(Kept(s, i))| >= 5 && Concat(Kept(s, i))[0..5] == s[i..i + 5] && OscEnd(s, i + 5) >= 0
  {
    FirstStretch(s, i);
    var runs := Kept(s, i);
    assert runs == [runs[0]] + runs[1..];
    ConcatFirst(runs[0], runs[1..]);
    assert runs[0][..5] == s[i..i + |runs[0]|][..5];
    LaterEnd(s, i + 5, i + |runs[0]| + 5);
  }

  lemma FirstStretchIsNotEmpty(s: string, i: nat)
    requires i < |s| && !CompleteAt(s, i)
    ensures |Kept(s, i)[0]| > 0
  {
    hide CompleteAt;
  }

  /** A complete sequence that begins the kept text was not one in the input. */
  lemma FirstStretchIsShort(s: string, i: nat)
    requires i < |s| && !CompleteAt(s, i) && CompleteAt(Concat(Kept(s, i)), 0)
    ensures |Kept(s, i)| > 1 && 0 < |Kept(s, i)[0]| < 5
  {
    hide Kept, Concat;
    FirstStretchIsNotEmpty(s, i);
    var t := Concat(Kept(s, i));
    if |Kept(s, i)| == 1 {
      hide CompleteAt;
      assert s == s[..i] + s[i..];
      SequenceShifts(s[..i], s[i..], 0);
      WholeStretch(s, i);
    } else if |Kept(s, i)[0]| >= 5 {
      LongStretch(s, i);
      hide Osc52At, OscEnd;
      IntroducerIs(s, i);
      IntroducerIs(t, 0);
    }
  }

  lemma SequenceShifts(a: string, b: string, k: nat)
    ensures CompleteAt(a + b, |a| + k) <==> CompleteAt(b, k)
  {
    OscEndIgnoresStart(a, b, k + 5);
    hide OscEnd;
    assert |a| + k + 5 == |a| + (k + 5);
    assert forall x: nat :: x < |b| ==> (a + b)[|a| + x] == b[x];
    assert Osc52At(a + b, |a| + k) == Osc52At(b, k);
  }

  lemma SeamShifts(first: string, runs: seq<string>, j: nat)
    requires 0 < j <= |runs|
    ensures SeamAt([first + runs[0]] + runs[1..], j) == |first| + SeamAt(runs, j)
    ensures SeamAt([first] + runs, j + 1) == |first| + SeamAt(runs, j)
  {
    hide Concat;
    var longer := [first + runs[0]] + runs[1..];
    assert longer[..j] == [first + runs[0]] + runs[1..j] && runs[..j] == [runs[0]] + runs[1..j];
    ConcatFirst(first + runs[0], runs[1..j]);
    ConcatFirst(runs[0], runs[1..j]);
    assert ([first] + runs)[..j + 1] == [first] + runs[..j];
    ConcatFirst(first, runs[..j]);
  }

  lemma TextAtEnd(s: string)
    ensures Concat(Kept(s, |s|)) == ""
  {
    WholeStretch(s, |s|);
  }

  lemma TextWhereRemoved(s: string, i: nat)
    requires i < |s| && CompleteAt(s, i)
    ensures Concat(Kept(s, i)) == Concat(Kept(s, Past(s, i)))
  {
    KeptRemoves(s, i);
    hide Kept, Concat, CompleteAt;
    ConcatFirst("", Kept(s, Past(s, i)));
  }

  lemma TextWhereKept(s: string, i: nat)
    requires i < |s| && !CompleteAt(s, i)
    ensures Concat(Kept(s, i)) == [s[i]] + Concat(Kept(s, i + 1))
  {
    KeptKeeps(s, i);
    hide Kept, Concat, CompleteAt;
    var r := Kept(s, i + 1);
    assert r == [r[0]] + r[1..];
    ConcatFirst(r[0], r[1..]);
    ConcatFirst([s[i]] + r[0], r[1..]);
    assert [s[i]] + r[0] + Concat(r[1..]) == [s[i]] + (r[0] + Concat(r[1..]));
  }

  lemma FirstSeam(s: string, i: nat)
    requires i <= |s|
    ensures SeamAt(Kept(s, i), 1) == |Kept(s, i)[0]|
  {
    hide Kept, Concat;
    var runs := Kept(s, i);
    assert runs[..1] == [runs[0]] + [];
    ConcatFirst(runs[0], []);
    ConcatNone();
  }

  /** Just past the sequence that starts at i. */
  function Past(s: string, i: nat): (next: nat)
    requires CompleteAt(s, i)
    ensures i < next <= |s|
  {
    PastTerminator(s, OscEnd(s, i + 5))
  }

  lemma SeamWhereRemoved(s: string, i: nat, j: nat)
    requires i < |s| && CompleteAt(s, i) && 0 < j < |Kept(s, Past(s, i))|
    ensures j + 1 < |Kept(s, i)| && SeamAt(Kept(s, i), j + 1) == SeamAt(Kept(s, Past(s, i)), j)
  {
    KeptRemoves(s, i);
    hide CompleteAt, Concat, SeamAt, Kept;
    SeamShifts("", Kept(s, Past(s, i)), j);
  }

  lemma SeamWhereKept(s: string, i: nat, j: nat)
    requires i < |s| && !CompleteAt(s, i) && 0 < j < |Kept(s, i + 1)|
    ensures j < |Kept(s, i)| && SeamAt(Kept(s, i), j) == 1 + SeamAt(Kept(s, i + 1), j)
  {
    KeptKeeps(s, i);
    hide CompleteAt, Concat, SeamAt, Kept;
    SeamShifts([s[i]], Kept(s, i + 1), j);
  }

  lemma SequenceBehind(c: char, t: string, k: nat)
    requires k > 0 && CompleteAt([c] + t, k)
    ensures CompleteAt(t, k - 1)
  {
    hide CompleteAt;
    SequenceShifts([c], t, k - 1);
  }

  /** Every complete sequence of the kept text has a seam inside its introducer. */
  lemma {:induction false} SequencesStraddle(s: string, i: nat, k: nat) returns (j: nat)
    requires i <= |s| && CompleteAt(Concat(Kept(s, i)), k)
    ensures 0 < j < |Kept(s, i)| && k < SeamAt(Kept(s, i), j) < k + 5
    decreases |s| - i
  {
    hide *;
    NothingAtEnd(s, i, k);
    if CompleteAt(s, i) {
      TextWhereRemoved(s, i);
      j := SequencesStraddle(s, Past(s, i), k);
      SeamWhereRemoved(s, i, j);
      j := j + 1;
    } else if k == 0 {
      FirstStretchIsShort(s, i);
      FirstSeam(s, i);
      j := 1;
    } else {
      TextWhereKept(s, i);
      SequenceBehind(s[i], Concat(Kept(s, i + 1)), k);
      j := SequencesStraddle(s, i + 1, k - 1);
      SeamWhereKept(s, i, j);
    }
  }

  lemma NothingAtEnd(s: string, i: nat, k: nat)
    requires i <= |s| && CompleteAt(Concat(Kept(s, i)), k)
    ensures i < |s|
  {
    hide Kept, Concat;
    TextAtEnd(s);
  }

  lemma KeptRemoves(s: string, i: nat)
    requires i < |s| && CompleteAt(s, i)
    ensures Kept(s, i) == [""] + Kept(s, Past(s, i))
  {
  }

  lemma KeptKeeps(s: string, i: nat)
    requires i < |s| && !CompleteAt(s, i)
    ensures Kept(s, i) == [[s[i]] + Kept(s, i + 1)[0]] + Kept(s, i + 1)[1..]
  {
    hide CompleteAt;
  }

  /** The text at a seam is what is before it and what is after it. */
  lemma SeamCompletes(runs: seq<string>, j: nat, k: nat)
    requires j < |runs| && k < SeamAt(runs, j) < k + 5 && CompleteAt(Concat(runs), k)
    ensures SomeSeamCompletes(runs)
  {
    hide Concat, CompleteAt, Completes;
    ConcatSplit(runs, j);
    var m := SeamAt(runs, j) - k;
    SeamIsSequence(Concat(runs[..j]), Concat(runs[j..]), m);
  }

  /** Exactly when a second scan finds something: somewhere a sequence was removed between the beginning of
      an introducer and its end, both kept, with a terminator behind. */
  lemma ScanAgainIff(s: string)
    ensures var once := ScanFrom(s, 0);
            ScanFrom(once.text, 0) == Scanned(once.text, None) <==> !SomeSeamCompletes(Kept(s, 0))
  {
    hide ScanFrom, CompleteAt, Concat, Completes, SeamAt;
    var (t, runs) := (ScanFrom(s, 0).text, Kept(s, 0));
    KeptIsText(s, 0);
    ScanKeepsAllIff(t);
    if k: nat :| CompleteAt(t, k) {
      var j := SequencesStraddle(s, 0, k);
      SeamCompletes(runs, j, k);
    }
    if SomeSeamCompletes(runs) {
      var j: nat, m: nat :| j < |runs| && Completes(Concat(runs[..j]), Concat(runs[j..]), m);
      ConcatSplit(runs, j);
      CompletesBounds(Concat(runs[..j]), Concat(runs[j..]), m);
      SeamIsSequence(Concat(runs[..j]), Concat(runs[j..]), m);
    }
  }

  lemma CompletesBounds(before: string, after: string, m: nat)
    requires Completes(before, after, m)
    ensures 1 <= m <= 4 && m <= |before|
  {
  }

  lemma {:induction false} TextIsPlain(items: seq<Item>)
    requires forall k :: 0 <= k < |items| ==> items[k].WellFormed()
    ensures ESC !in TextOf(items)
  {
    if items != [] { TextIsPlain(items[1..]); }
  }

  /** Of such streams a second scan finds nothing more. */
  lemma ScanAgainFindsNothing(items: seq<Item>)
    requires forall k :: 0 <= k < |items| ==> items[k].WellFormed()
    ensures var once := ScanFrom(Stream(items), 0);
            ScanFrom(once.text, 0) == Scanned(once.text, None)
  {
    ScanStream(items);
    TextIsPlain(items);
    PlainText(TextOf(items), 0);
  }

  lemma PlainText(t: string, i: nat)
    requires i <= |t| && ESC !in t[i..]
    ensures ScanFrom(t, i) == Scanned(t[i..], None)
  {
    assert t[i..i + (|t| - i)] == t[i..];
    ScanText(t, i, |t| - i);
    ScanEnd(t);
  }

  /** Of others it may: a sequence that another one interrupts is put together by the first scan, text
      for the first and a payload for the second. */
  lemma ScanAgainFindsMore(inner: Item, outer: Item)
    requires inner.SetClipboard? && inner.WellFormed() && inner.data != []
    requires outer.SetClipboard? && outer.WellFormed() && outer.data != [] && outer.belEnded
    ensures var whole := outer.Render();
            var s := whole[..4] + inner.Render() + whole[4..];
            && ScanFrom(s, 0) == Scanned(whole, Some(inner.data))
            && ScanFrom(whole, 0) == Scanned("", Some(outer.data))
  {
    hide *;
    var body := outer.Body();
    RenderIs(outer, body);
    BodyIsPlain(outer);
    StartIs(outer.Render(), body);
    RestIsPlain(outer.Render(), body);
    InterruptedScan(inner, outer.Render());
    AloneScans(outer);
  }

  lemma StartIs(whole: string, body: string)
    requires whole == [ESC, ']', '5', '2', ';'] + (body + [BEL])
    ensures |whole| >= 5 && whole[..4] == [ESC, ']', '5', '2']
  {
  }

  lemma AloneScans(item: Item)
    requires item.SetClipboard? && item.WellFormed() && item.data != []
    ensures ScanFrom(item.Render(), 0) == Scanned("", Some(item.data))
  {
    hide Item.Render, Item.WellFormed, ScanFrom;
    ScanStream([item]);
    assert Stream([item]) == item.Render() + "";
    assert item.Render() + "" == item.Render();
    assert TextOf([item]) == "" && ClipboardOf([item]) == Some(item.data);
  }

  lemma InterruptedScan(inner: Item, whole: string)
    requires inner.SetClipboard? && inner.WellFormed() && inner.data != []
    requires |whole| >= 5 && whole[..4] == [ESC, ']', '5', '2'] && ESC !in whole[4..]
    ensures ScanFrom(whole[..4] + inner.Render() + whole[4..], 0) == Scanned(whole, Some(inner.data))
  {
    hide Item.Render, Item.WellFormed, ScanFrom, At, Extended;
    RenderIs(inner, inner.Body());
    var s := whole[..4] + inner.Render() + whole[4..];
    InterruptedStart(s, inner.Render(), whole);
    InterruptingScan(s, inner, whole);
    ExtendedIs(whole[..4], Some(inner.data), whole[4..]);
    assert whole[..4] + whole[4..] == whole;
  }

  lemma ExtendedIs(text: string, clipboard: Option<seq<Byte>>, rest: string)
    ensures Extended(text, None, Scanned(rest, clipboard)) == Scanned(text + rest, clipboard)
    ensures Extended("", clipboard, Scanned(rest, None)) == Scanned(rest, clipboard)
  {
    assert "" + rest == rest;
  }

  lemma InterruptingScan(s: string, inner: Item, whole: string)
    requires inner.SetClipboard? && inner.WellFormed() && inner.data != []
    requires |whole| >= 5 && ESC !in whole[4..] && s == whole[..4] + inner.Render() + whole[4..]
    ensures ScanFrom(s, 4) == Scanned(whole[4..], Some(inner.data))
  {
    hide Item.Render, Item.WellFormed, ScanFrom, At, Extended;
    var q := inner.Render();
    AfterStart(s, q, whole);
    PieceAt(s, 4, q, whole[4..]);
    ScanSequence(s, 4, inner);
    PlainText(s, 4 + |q|);
    ExtendedIs("", Some(inner.data), whole[4..]);
  }

  lemma AfterStart(s: string, q: string, whole: string)
    requires |whole| >= 5 && s == whole[..4] + q + whole[4..]
    ensures s[4..] == q + whole[4..]
  {
  }

  lemma RestIsPlain(whole: string, body: string)
    requires whole == [ESC, ']', '5', '2', ';'] + (body + [BEL]) && forall c :: c in body ==> c != ESC && c != BEL
    ensures ESC !in whole[4..]
  {
    assert whole[4..] == [';'] + (body + [BEL]);
  }

  lemma InterruptedStart(s: string, q: string, whole: string)
    requires |whole| >= 5 && whole[..4] == [ESC, ']', '5', '2'] && q != "" && q[0] == ESC
    requires s == whole[..4] + q + whole[4..]
    ensures ScanFrom(s, 0) == Extended(whole[..4], None, ScanFrom(s, 4))
  {
    hide ScanFrom;
    assert s[0] == ESC && s[1] == ']' && s[2] == '5' && s[3] == '2' && s[4] == ESC;
    ScanOther(s, 0);
    ScanOther(s, 1);
    ScanOther(s, 2);
    ScanOther(s, 3);
    var r := ScanFrom(s, 4);
    assert [s[0]] + ([s[1]] + ([s[2]] + ([s[3]] + r.text))) == whole[..4] + r.text;
  }
}
