/** ServerInfo: its payload decodes to itself, or not; and exactly when. */
module ServerInfos {
  import opened Bytes
  import opened Wire
  import opened Messages

  function Newlines(s: Text): nat {
    if s == [] then 0 else (if s[0] == NEWLINE then 1 else 0) + Newlines(s[1..])
  }

  lemma {:induction false} NewlinesAfterFirst(s: Text)
    ensures var n := FindNewline(s);
            Newlines(s) == if n < |s| then 1 + Newlines(s[n + 1..]) else 0
  {
    if s != [] && s[0] != NEWLINE {
      NewlinesAfterFirst(s[1..]);
      var n := FindNewline(s);
      if n < |s| { assert s[1..][n..] == s[n + 1..]; }
    }
  }

  /** The decoder's test for the old format. */
  lemma TwoNewlines(s: Text)
    ensures var n := FindNewline(s);
            Newlines(s) >= 2 <==> n < |s| && n + 1 + FindNewline(s[n + 1..]) < |s|
  {
    var n := FindNewline(s);
    NewlinesAfterFirst(s);
    if n < |s| { NewlinesAfterFirst(s[n + 1..]); }
    hide Newlines, FindNewline;
  }

  lemma {:induction false} CountsBoth(s: Text, i: nat, j: nat)
    requires i < j < |s| && s[i] == NEWLINE && s[j] == NEWLINE
    ensures Newlines(s) >= 2
  {
    if i > 0 { CountsBoth(s[1..], i - 1, j - 1); } else { CountsOne(s[1..], j - 1); }
  }

  lemma {:induction false} CountsOne(s: Text, j: nat)
    requires j < |s| && s[j] == NEWLINE
    ensures Newlines(s) >= 1
  {
    if j > 0 { CountsOne(s[1..], j - 1); }
  }

  function TailFields(m: Message): seq<Field>
    requires m.ServerInfo?
  {
    [Raw(m.load), Str16(m.sessionsSummary)] + (if m.hostStats != [] then [Str16(m.hostStats)] else [])
    + (if m.latency != [] then [Str16(m.latency)] else [])
  }

  lemma PayloadIs(m: Message)
    requires m.ServerInfo? && Payload(m).Some?
    ensures EncAll([Str16(m.hostname), Str16(m.version)]).Some? && EncAll(TailFields(m)).Some?
    ensures Payload(m).value == EncAll([Str16(m.hostname), Str16(m.version)]).value + EncAll(TailFields(m)).value
  {
    PayloadWithoutItems(m);
    assert Fields(m) == [Str16(m.hostname), Str16(m.version)] + TailFields(m);
    hide EncAll, Payload, Fields, TailFields;
    EncSum([Str16(m.hostname), Str16(m.version)], TailFields(m));
  }

  lemma TailFits(m: Message)
    requires m.ServerInfo?
    ensures var (fs, ks) := (TailFields(m), SERVER_TAIL);
            && |fs| <= |ks| && FitAll(fs, ks[..|fs|])
            && (forall i :: 0 <= i < |ks| ==> !TakesRest(ks[i])) && forall i :: 0 <= i < |ks| ==> Optional(ks[i])
  {
  }

  lemma ServerTailOf(hostname: Text, version: Text, s: Text, fs: seq<Field>)
    requires |fs| == 4 && ReadAll(SERVER_TAIL, s) == Some((fs, []))
    ensures ServerTail(hostname, version, s)
         == Some(ServerInfo(hostname, version, if |S(fs[0])| == 8 then S(fs[0]) else seq(8, _ => 0), S(fs[1]), S(fs[2]), S(fs[3])))
  {
    hide ReadAll, S;
  }

  lemma TailDefaults()
    ensures |SERVER_TAIL| == 4
    ensures DefaultOf(SERVER_TAIL[0]) == Raw([0, 0, 0, 0, 0, 0, 0, 0])
    ensures DefaultOf(SERVER_TAIL[1]) == DefaultOf(SERVER_TAIL[2]) == DefaultOf(SERVER_TAIL[3]) == Str16([])
  {
  }

  lemma TailFieldsAre(m: Message)
    requires m.ServerInfo?
    ensures var fs := TailFields(m);
            && 2 <= |fs| <= 4 && fs[0] == Raw(m.load) && fs[1] == Str16(m.sessionsSummary)
            && (|fs| > 2 ==> fs[2] == Str16(if m.hostStats != [] then m.hostStats else m.latency))
            && (|fs| > 3 ==> fs[3] == Str16(m.latency))
            && |fs| == 2 + (if m.hostStats != [] then 1 else 0) + (if m.latency != [] then 1 else 0)
  {
  }

  /** The message as one reads it who stops after n fields behind name and version. */
  function CutInfo(m: Message, n: nat): Message
    requires m.ServerInfo?
  {
    ServerInfo(m.hostname, m.version, if n > 0 then m.load else [0, 0, 0, 0, 0, 0, 0, 0],
               if n > 1 then m.sessionsSummary else [],
               if n <= 2 then [] else if m.hostStats != [] then m.hostStats else m.latency,
               if n > 3 then m.latency else [])
  }

  lemma TailFitsCut(m: Message, n: nat)
    requires m.ServerInfo? && n <= |TailFields(m)|
    ensures n <= |SERVER_TAIL| && FitAll(TailFields(m)[..n], SERVER_TAIL[..n])
    ensures forall i :: 0 <= i < n ==> !TakesRest(SERVER_TAIL[i])
    ensures forall i :: n <= i < |SERVER_TAIL| ==> Optional(SERVER_TAIL[i])
  {
    TailFits(m);
    hide Fits, TakesRest, Optional, TailFields, SERVER_TAIL;
    forall i | 0 <= i < n ensures Fits(TailFields(m)[..n][i], SERVER_TAIL[..n][i]) {
      assert Fits(TailFields(m)[i], SERVER_TAIL[..|TailFields(m)|][i]);
    }
  }

  /** What the decoder makes of the first n fields behind name and version. */
  lemma TailReadsCut(m: Message, n: nat)
    requires m.ServerInfo? && n <= |TailFields(m)| && EncAll(TailFields(m)[..n]).Some?
    ensures ServerTail(m.hostname, m.version, EncAll(TailFields(m)[..n]).value)
         == Some(CutInfo(m, n))
  {
    hide *;
    TailFitsCut(m, n);
    ReadsOldSender(TailFields(m)[..n], SERVER_TAIL, n);
    TailCut(m, n);
    var all := TailFields(m)[..n] + Defaults(SERVER_TAIL[n..]);
    ServerTailOf(m.hostname, m.version, EncAll(TailFields(m)[..n]).value, all);
    CutTexts(m, n, all);
  }

  lemma TailCut(m: Message, n: nat)
    requires m.ServerInfo? && n <= |TailFields(m)|
    ensures n <= 4 == |SERVER_TAIL|
    ensures var all := TailFields(m)[..n] + Defaults(SERVER_TAIL[n..]);
            |all| == 4 && forall i :: 0 <= i < 4 ==> all[i] == if i < n then TailFields(m)[i] else DefaultOf(SERVER_TAIL[i])
  {
    hide TailFields, SERVER_TAIL, DefaultOf;
    TailDefaults();
    TailFieldsAre(m);
  }

  /** What the fields say, written or by default. */
  lemma CutTexts(m: Message, n: nat, all: seq<Field>)
    requires m.ServerInfo? && n <= |TailFields(m)| && |all| == 4
    requires forall i :: 0 <= i < 4 ==> all[i] == if i < n then TailFields(m)[i] else DefaultOf(SERVER_TAIL[i])
    ensures ServerInfo(m.hostname, m.version, if |S(all[0])| == 8 then S(all[0]) else seq(8, _ => 0), S(all[1]), S(all[2]), S(all[3]))
         == CutInfo(m, n)
  {
    TailDefaults();
    TailFieldsAre(m);
    hide DefaultOf, TailFields, SERVER_TAIL;
  }

  /** Where the decoder puts the two optional texts. */
  lemma TailReads(m: Message)
    requires m.ServerInfo? && EncAll(TailFields(m)).Some?
    ensures ServerTail(m.hostname, m.version, EncAll(TailFields(m)).value)
         == Some(if m.hostStats != [] then m else m.(hostStats := m.latency, latency := []))
  {
    hide EncAll, ServerTail, TailFields;
    TailFieldsAre(m);
    assert TailFields(m)[..|TailFields(m)|] == TailFields(m);
    TailReadsCut(m, |TailFields(m)|);
  }

  lemma HeadReads(m: Message, tail: Text)
    requires m.ServerInfo? && EncAll([Str16(m.hostname), Str16(m.version)]).Some?
    ensures var fs := [Str16(m.hostname), Str16(m.version)];
            ReadAll([KStr16, KStr16], EncAll(fs).value + tail) == Some((fs, tail))
  {
    hide EncAll, ReadAll;
    ReadAllBack([Str16(m.hostname), Str16(m.version)], [KStr16, KStr16], tail);
  }

  lemma ReadsPrefixes(s: Text, h: Text, v: Text, tail: Text)
    requires Newlines(s) < 2 && ReadAll([KStr16, KStr16], s) == Some(([Str16(h), Str16(v)], tail))
    ensures DecodeServerInfo(s) == ServerTail(h, v, tail)
  {
    TwoNewlines(s);
    hide ReadAll, ServerTail, FindNewline, Newlines;
  }

  /** Without two newlines the length-prefixed form is read. */
  lemma PrefixedForm(m: Message)
    requires m.ServerInfo? && Payload(m).Some? && Newlines(Payload(m).value) < 2
    ensures DecodeServerInfo(Payload(m).value)
         == Some(if m.hostStats != [] then m else m.(hostStats := m.latency, latency := []))
  {
    hide EncAll, ReadAll, Payload, ServerTail, TailFields, Newlines, DecodeServerInfo;
    PayloadIs(m);
    var tail := EncAll(TailFields(m)).value;
    HeadReads(m, tail);
    ReadsPrefixes(Payload(m).value, m.hostname, m.version, tail);
    TailReads(m);
  }

  lemma PayloadStarts(m: Message)
    requires m.ServerInfo? && Payload(m).Some?
    ensures |m.hostname| <= 0xFFFF && |m.version| <= 0xFFFF
    ensures exists rest :: Payload(m).value == Be16(|m.hostname|) + m.hostname + (Be16(|m.version|) + m.version + rest)
  {
    PayloadIs(m);
    var (a, b) := (Str16(m.hostname), Str16(m.version));
    assert [a, b][1..] == [b] && [b][1..] == [];
    EncStep([a, b]);
    EncStep([b]);
    var tail := EncAll(TailFields(m)).value;
    hide EncAll, Payload, TailFields, Be16;
    var (x, y) := (Be16(|m.hostname|) + m.hostname, Be16(|m.version|) + m.version);
    assert y + [] == y;
    assert x + y + tail == x + (y + tail);
  }

  /** What comes before the first newline is never the hostname: it would repeat its own length. */
  lemma HostnameDiffers(h: Text, rest: Text)
    requires |h| <= 0xFFFF
    requires var s := Be16(|h|) + h + rest; FindNewline(s) < |s|
    ensures var s := Be16(|h|) + h + rest; s[..FindNewline(s)] != h
  {
    var s := Be16(|h|) + h + rest;
    var n := FindNewline(s);
    hide FindNewline;
    if |h| == n {
      assert s[0] == n / 0x100 && s[1] == n % 0x100;
      assert n >= 2;
      assert s[n] == h[n - 2];
      assert s[..n][n - 2] != h[n - 2];
    }
  }

  lemma OldForm(m: Message)
    requires m.ServerInfo? && Payload(m).Some? && Newlines(Payload(m).value) >= 2
    ensures DecodeServerInfo(Payload(m).value) != Some(m)
  {
    var s := Payload(m).value;
    TwoNewlines(s);
    PayloadStarts(m);
    var rest :| s == Be16(|m.hostname|) + m.hostname + (Be16(|m.version|) + m.version + rest);
    HostnameDiffers(m.hostname, Be16(|m.version|) + m.version + rest);
    hide Payload, FindNewline, Newlines, ReadAll, Be16;
  }

  lemma NewlinesEnd(h: Text, v: Text, tail: Text)
    requires NEWLINE !in h && NEWLINE !in v
    ensures var s := h + [10] + v + [10] + tail;
            && FindNewline(s) == |h| && s[..|h|] == h
            && s[|h| + 1..] == v + [10] + tail && FindNewline(s[|h| + 1..]) == |v|
            && s[|h| + 1..|h| + 1 + |v|] == v && s[|h| + |v| + 2..] == tail
  {
    hide FindNewline;
    var s := h + [10] + v + [10] + tail;
    assert s[|h|] == 10 && (forall i :: 0 <= i < |h| ==> s[i] == h[i]);
    var r := s[|h| + 1..];
    assert r == v + [10] + tail;
    assert r[|v|] == 10 && (forall i :: 0 <= i < |v| ==> r[i] == v[i]);
  }

  /** The form of old senders: name and version, each with its newline, then as many of the other fields as
      the sender knows. */
  lemma NewlineFormReads(m: Message, n: nat)
    requires m.ServerInfo? && NEWLINE !in m.hostname && NEWLINE !in m.version
    requires n <= |TailFields(m)| && EncAll(TailFields(m)[..n]).Some?
    ensures DecodePayload(0x09, m.hostname + [10] + m.version + [10] + EncAll(TailFields(m)[..n]).value)
         == Some(ServerInfo(m.hostname, m.version, if n > 0 then m.load else [0, 0, 0, 0, 0, 0, 0, 0],
                            if n > 1 then m.sessionsSummary else [],
                            if n <= 2 then [] else if m.hostStats != [] then m.hostStats else m.latency,
                            if n > 3 then m.latency else []))
  {
    hide EncAll, ServerTail, TailFields, FindNewline, DecodePayload;
    var tail := EncAll(TailFields(m)[..n]).value;
    ServerInfoIsDecoded(m.hostname + [10] + m.version + [10] + tail);
    NewlinesEnd(m.hostname, m.version, tail);
    TailReadsCut(m, n);
  }

  lemma ServerInfoIsDecoded(s: Text)
    ensures DecodePayload(0x09, s) == DecodeServerInfo(s)
  {
    hide DecodeServerInfo;
  }

  /** A ServerInfo survives its trip exactly if its payload has fewer than two newline bytes and no
      latency table without host metrics. */
  lemma ServerInfoRoundTripIff(m: Message)
    requires m.ServerInfo? && Payload(m).Some?
    ensures TypeByte(m) == 0x09
    ensures DecodePayload(TypeByte(m), Payload(m).value) == Some(m)
       <==> Newlines(Payload(m).value) < 2 && (m.hostStats == [] ==> m.latency == [])
  {
    var s := Payload(m).value;
    assert TypeByte(m) == 0x09;
    ServerInfoIsDecoded(s);
    hide Payload, Newlines, DecodeServerInfo, DecodePayload;
    if Newlines(s) < 2 { PrefixedForm(m); } else { OldForm(m); }
  }

  /** The length bytes can be the newlines: a node whose name and version have ten bytes each. */
  lemma TenByteNamesDoNotSurvive(m: Message)
    requires m.ServerInfo? && Payload(m).Some? && |m.hostname| == 10 && |m.version| == 10
    ensures DecodePayload(TypeByte(m), Payload(m).value) != Some(m)
  {
    PayloadStarts(m);
    var rest :| Payload(m).value == Be16(10) + m.hostname + (Be16(10) + m.version + rest);
    var s := Payload(m).value;
    assert s[1] == NEWLINE && s[13] == NEWLINE;
    hide Payload, Newlines, DecodePayload, Be16;
    CountsBoth(s, 1, 13);
    ServerInfoRoundTripIff(m);
  }
}
