/** The client's incremental reader of transfer answers (consume_transfer_ipc_chunk, bs-codec.h):
    progress lines stream by until a terminal line ends the exchange. */
module IpcLines {
  import opened Bytes
  import opened Sequences

  const MAX_PENDING := 1024 * 1024

  predicate HasPrefix(s: string, p: string) {
    |p| <= |s| && s[..|p|] == p
  }

  predicate IsProgress(line: string) { HasPrefix(line, "PROGRESS ") }

  predicate IsTerminal(line: string) {
    !IsProgress(line) && (HasPrefix(line, "OK ") || HasPrefix(line, "ERROR"))
  }

  /** One carriage return before the newline is dropped. */
  function Strip(line: string): string {
    if line != "" && line[|line| - 1] == '\r' then line[..|line| - 1] else line
  }

  // ── What a whole stream says ──────────────────────────────────────────────────

  /** The complete lines of a stream, newlines and carriage returns off. */
  function CompleteLines(s: string): seq<string>
    decreases |s|
  {
    var nl := Find(s, '\n', 0);
    if nl.None? then [] else [Strip(s[..nl.value])] + CompleteLines(s[nl.value + 1..])
  }

  /** The index of the first terminal line; the number of lines when there is none. */
  function FirstTerminal(ls: seq<string>): (t: nat)
    ensures t <= |ls| && (t < |ls| ==> IsTerminal(ls[t]))
    ensures forall i :: 0 <= i < t ==> !IsTerminal(ls[i])
  {
    if ls == [] || IsTerminal(ls[0]) then 0 else 1 + FirstTerminal(ls[1..])
  }

  function ProgressOf(ls: seq<string>): seq<string> {
    if ls == [] then [] else (if IsProgress(ls[0]) then [ls[0]] else []) + ProgressOf(ls[1..])
  }

  /** What follows the first n complete lines. */
  function AfterLines(s: string, n: nat): string
    requires n <= |CompleteLines(s)|
    decreases n
  {
    if n == 0 then s else AfterLines(s[Find(s, '\n', 0).value + 1..], n - 1)
  }

  datatype Scanned = Scanned(progress: seq<string>, terminal: Option<string>, rest: string)

  /** The batch reading: split into lines, keep the progress lines before the first terminal one,
      and leave alone what comes after it. */
  function Batch(s: string): Scanned {
    var ls := CompleteLines(s);
    var t := FirstTerminal(ls);
    if t < |ls| then Scanned(ProgressOf(ls[..t]), Some(ls[t]), AfterLines(s, t + 1))
    else Scanned(ProgressOf(ls), None, AfterLines(s, |ls|))
  }

  // ── The loop ──────────────────────────────────────────────────────────────────

  function Prepend(progress: seq<string>, r: Scanned): Scanned {
    r.(progress := progress + r.progress)
  }

  /** The source's line loop from the front of s. */
  function Scan(s: string): Scanned
    decreases |s|
  {
    var nl := Find(s, '\n', 0);
    if nl.None? then Scanned([], None, s)
    else
      var line, rest := Strip(s[..nl.value]), s[nl.value + 1..];
      if IsProgress(line) then Prepend([line], Scan(rest))
      else if IsTerminal(line) then Scanned([], Some(line), rest)
      else Scan(rest)
  }

  /** What one call does: Err when pending and chunk together would pass 1 MiB. */
  function Consumed(pending: string, chunk: string): Scanned {
    if |pending| + |chunk| > 1048576 && |chunk| > 0 then
      Scanned([], Some("ERROR IPC response exceeds 1 MiB"), "")
    else Scan(pending + chunk)
  }

  class Reader {
    var pending: string

    constructor ()
      ensures pending == ""
    {
      pending := "";
    }

    /** consume_transfer_ipc_chunk; the lines given to emit_progress are returned in order. */
    method Consume(chunk: string) returns (progress: seq<string>, terminal: Option<string>)
      modifies this
      ensures Scanned(progress, terminal, pending) == Consumed(old(pending), chunk)
    {
      hide Find, Scan, IsProgress, IsTerminal, Strip;
      progress := [];
      if |chunk| > MAX_PENDING - (if |pending| < MAX_PENDING then |pending| else MAX_PENDING) {
        pending := "";
        return [], Some("ERROR IPC response exceeds 1 MiB");
      }
      pending := pending + chunk;
      var all := pending;
      var consumed := 0;
      PrependNothing(Scan(all));
      assert all[0..] == all;
      while true
        invariant pending == all && consumed <= |all|
        invariant Prepend(progress, Scan(all[consumed..])) == Scan(all)
        decreases |all| - consumed
      {
        ScanStep(progress, all, consumed);
        var newline := Find(pending, '\n', consumed);
        if newline.None? { break; }
        var line := Strip(pending[consumed..newline.value]);
        consumed := newline.value + 1;
        if IsProgress(line) {
          progress := progress + [line];
          continue;
        }
        if IsTerminal(line) {
          pending := pending[consumed..];
          return progress, Some(line);
        }
      }
      if consumed > 0 { pending := pending[consumed..]; }
      return progress, None;
    }
  }

  lemma PrependNothing(r: Scanned)
    ensures Prepend([], r) == r
  {
    assert [] + r.progress == r.progress;
  }

  lemma {:induction false} FindShift(s: string, from: nat, k: nat)
    requires from + k <= |s|
    ensures var r := Find(s[from..], '\n', k);
            Find(s, '\n', from + k) == if r.None? then None else Some(from + r.value)
    decreases |s| - k
  {
    if from + k < |s| {
      FindShift(s, from, k + 1);
    }
  }

  /** One turn of the loop, at offset `from` of the buffer. */
  lemma ScanStep(progress: seq<string>, s: string, from: nat)
    requires from <= |s|
    ensures var nl, r := Find(s, '\n', from), Prepend(progress, Scan(s[from..]));
            if nl.None? then r == Scanned(progress, None, s[from..])
            else
              var line, next := Strip(s[from..nl.value]), s[nl.value + 1..];
              r == if IsProgress(line) then Prepend(progress + [line], Scan(next))
                   else if IsTerminal(line) then Scanned(progress, Some(line), next)
                   else Prepend(progress, Scan(next))
  {
    hide Find, IsProgress, IsTerminal, Strip;
    var t, nl := s[from..], Find(s, '\n', from);
    FindShift(s, from, 0);
    if nl.Some? {
      var k := nl.value - from;
      assert t[..k] == s[from..nl.value] && t[k + 1..] == s[nl.value + 1..];
      PrependLine(progress, Strip(t[..k]), Scan(t[k + 1..]));
    }
    assert progress + [] == progress;
  }

  lemma PrependLine(progress: seq<string>, line: string, next: Scanned)
    ensures Prepend(progress, Prepend([line], next)) == Prepend(progress + [line], next)
  {
    assert progress + ([line] + next.progress) == progress + [line] + next.progress;
  }

  /** One line more in front. */
  lemma LinesStep(s: string, n: nat)
    requires Find(s, '\n', 0).Some?
    ensures var nl := Find(s, '\n', 0).value;
            var (line, rest) := (Strip(s[..nl]), s[nl + 1..]);
            && CompleteLines(s) == [line] + CompleteLines(rest)
            && (n <= |CompleteLines(rest)| ==> AfterLines(s, n + 1) == AfterLines(rest, n))
            && AfterLines(s, 0) == s
  {
    hide Find, Strip;
  }

  lemma FirstTerminalStep(line: string, ms: seq<string>)
    ensures FirstTerminal([line] + ms) == if IsTerminal(line) then 0 else 1 + FirstTerminal(ms)
    ensures ProgressOf([line] + ms) == (if IsProgress(line) then [line] else []) + ProgressOf(ms)
  {
    hide IsTerminal, IsProgress;
    assert ([line] + ms)[1..] == ms;
  }

  lemma NoLines(rest: string)
    ensures ProgressOf([]) == [] && AfterLines(rest, 0) == rest
  {
  }

  lemma BatchIs(s: string, ls: seq<string>, t: nat)
    requires ls == CompleteLines(s) && t == FirstTerminal(ls)
    ensures t < |ls| ==> Batch(s) == Scanned(ProgressOf(ls[..t]), Some(ls[t]), AfterLines(s, t + 1))
    ensures t >= |ls| ==> Batch(s) == Scanned(ProgressOf(ls), None, AfterLines(s, |ls|))
  {
    hide CompleteLines, FirstTerminal, ProgressOf, AfterLines;
  }

  lemma TerminalLineFirst(s: string, line: string, rest: string)
    requires Find(s, '\n', 0).Some? && line == Strip(s[..Find(s, '\n', 0).value]) && rest == s[Find(s, '\n', 0).value + 1..]
    requires IsTerminal(line)
    ensures Batch(s) == Scanned([], Some(line), rest)
  {
    var ms := CompleteLines(rest);
    LinesStep(s, 0);
    FirstTerminalStep(line, ms);
    BatchIs(s, [line] + ms, 0);
    NoLines(rest);
    hide *;
    assert ([line] + ms)[..0] == [];
  }

  lemma OtherLineFirst(s: string, line: string, rest: string)
    requires Find(s, '\n', 0).Some? && line == Strip(s[..Find(s, '\n', 0).value]) && rest == s[Find(s, '\n', 0).value + 1..]
    requires !IsTerminal(line)
    ensures Batch(s) == Prepend(if IsProgress(line) then [line] else [], Batch(rest))
  {
    hide Find, Strip, IsTerminal, IsProgress, CompleteLines, FirstTerminal, ProgressOf, AfterLines, Batch;
    var ms := CompleteLines(rest);
    var t := FirstTerminal(ms);
    LinesStep(s, |ms|);
    FirstTerminalStep(line, ms);
    BatchIs(s, [line] + ms, t + 1);
    BatchIs(rest, ms, t);
    if t < |ms| {
      LinesStep(s, t + 1);
      FirstTerminalStep(line, ms[..t]);
    }
    var ls := [line] + ms;
    if t < |ms| { assert ls[..t + 1] == [line] + ms[..t]; }
  }

  /** The batch reading, line by line. */
  lemma BatchStep(s: string)
    requires Find(s, '\n', 0).Some?
    ensures var nl := Find(s, '\n', 0).value;
            var (line, rest) := (Strip(s[..nl]), s[nl + 1..]);
            && (IsTerminal(line) ==> Batch(s) == Scanned([], Some(line), rest))
            && (!IsTerminal(line) ==> Batch(s) == Prepend(if IsProgress(line) then [line] else [], Batch(rest)))
  {
    hide *;
    var nl := Find(s, '\n', 0).value;
    var (line, rest) := (Strip(s[..nl]), s[nl + 1..]);
    if IsTerminal(line) { TerminalLineFirst(s, line, rest); } else { OtherLineFirst(s, line, rest); }
  }

  /** The loop reads a stream as the batch splitter does. */
  lemma {:induction false} ScanIsBatch(s: string)
    ensures Scan(s) == Batch(s)
    decreases |s|
  {
    hide Find, IsProgress, IsTerminal, Strip, Batch;
    var nl := Find(s, '\n', 0);
    if nl.Some? {
      var line, rest := Strip(s[..nl.value]), s[nl.value + 1..];
      ScanIsBatch(rest);
      BatchStep(s);
      PrependNothing(Scan(rest));
      if IsTerminal(line) { TerminalIsNoProgress(line); }
    } else {
      NoLine(s);
    }
  }

  lemma NoLine(s: string)
    requires Find(s, '\n', 0).None?
    ensures Batch(s) == Scanned([], None, s)
  {
    hide Find;
  }

  lemma TerminalIsNoProgress(line: string)
    requires IsTerminal(line)
    ensures !IsProgress(line)
  {
  }

  // ── Any cutting into chunks ───────────────────────────────────────────────────

  lemma {:induction false} FindFirst(s: string, from: nat, k: nat)
    requires from <= k < |s| && s[k] == '\n' && '\n' !in s[from..k]
    ensures Find(s, '\n', from) == Some(k)
    decreases k - from
  {
    if from < k {
      assert s[from..k][0] == s[from] && s[from..k][1..] == s[from + 1..k];
      assert s[from] in s[from..k];
      forall c | c in s[from + 1..k] ensures c in s[from..k] {}
      FindFirst(s, from + 1, k);
    }
  }

  /** The first line of a text that has one, and the rest. */
  lemma ScanFirstLine(s: string, n: nat)
    requires Find(s, '\n', 0) == Some(n)
    ensures var (line, r) := (Strip(s[..n]), Scan(s[n + 1..]));
            Scan(s) == if IsProgress(line) then Prepend([line], r)
                       else if IsTerminal(line) then Scanned([], Some(line), s[n + 1..])
                       else r
  {
    hide Find, IsProgress, IsTerminal, Strip;
  }

  lemma ScanNoLine(s: string)
    requires Find(s, '\n', 0).None?
    ensures Scan(s) == Scanned([], None, s)
  {
    hide Find;
  }

  lemma PrependTwice(line: string, p: seq<string>, q: Scanned)
    ensures Prepend([line], Prepend(p, q)) == Prepend([line] + p, q)
  {
    assert [line] + (p + q.progress) == ([line] + p) + q.progress;
  }

  /** Reading may stop after any prefix and go on with what it left. */
  lemma {:induction false} ScanSplit(a: string, b: string)
    ensures Scan(a + b) == if Scan(a).terminal.Some? then Scan(a).(rest := Scan(a).rest + b)
                           else Prepend(Scan(a).progress, Scan(Scan(a).rest + b))
    decreases |a|
  {
    hide Find, IsProgress, IsTerminal, Strip, Scan;
    var nl := Find(a, '\n', 0);
    if nl.None? {
      ScanNoLine(a);
      PrependNothing(Scan(a + b));
    } else {
      var n, rest := nl.value, a[nl.value + 1..];
      assert a[0..n] == a[..n] && (a + b)[0..n] == a[..n];
      FindFirst(a + b, 0, n);
      assert (a + b)[..n] == a[..n] && (a + b)[n + 1..] == rest + b;
      ScanSplit(rest, b);
      ScanFirstLine(a, n);
      ScanFirstLine(a + b, n);
      PrependTwice(Strip(a[..n]), Scan(rest).progress, Scan(Scan(rest).rest + b));
    }
  }

  /** The receive loop of the CLI: it stops at the first terminal line. */
  datatype Client = Client(pending: string, progress: seq<string>, terminal: Option<string>)

  function Feed(c: Client, chunk: string): Client {
    if c.terminal.Some? then c
    else
      var r := Consumed(c.pending, chunk);
      Client(r.rest, c.progress + r.progress, r.terminal)
  }

  function FeedAll(c: Client, chunks: seq<string>): Client
    decreases |chunks|
  {
    if chunks == [] then c else FeedAll(Feed(c, chunks[0]), chunks[1..])
  }

  /** No call of the run hits the 1 MiB limit. */
  predicate NeverOverflows(c: Client, chunks: seq<string>)
    decreases |chunks|
  {
    chunks == [] || c.terminal.Some? ||
    (|c.pending| + |chunks[0]| <= MAX_PENDING && NeverOverflows(Feed(c, chunks[0]), chunks[1..]))
  }

  /** The chunks that the run never asks for. */
  function Unread(c: Client, chunks: seq<string>): string
    decreases |chunks|
  {
    if chunks == [] then ""
    else if c.terminal.Some? then Concat(chunks)
    else Unread(Feed(c, chunks[0]), chunks[1..])
  }

  lemma {:induction false} StopsAtTerminal(c: Client, chunks: seq<string>)
    requires c.terminal.Some?
    ensures FeedAll(c, chunks) == c && Unread(c, chunks) == Concat(chunks)
    decreases |chunks|
  {
    if chunks != [] { StopsAtTerminal(c, chunks[1..]); }
  }

  lemma {:induction false} RunIsScan(c: Client, chunks: seq<string>)
    requires c.terminal.None? && NeverOverflows(c, chunks) && Scan(c.pending) == Scanned([], None, c.pending)
    ensures var t, r := FeedAll(c, chunks), Scan(c.pending + Concat(chunks));
            t.progress == c.progress + r.progress && t.terminal == r.terminal
            && t.pending + Unread(c, chunks) == r.rest
    decreases |chunks|
  {
    hide Scan;
    if chunks == [] {
      assert c.pending + "" == c.pending && c.progress + [] == c.progress;
    } else {
      var chunk, more := chunks[0], Concat(chunks[1..]);
      var a := c.pending + chunk;
      var r, d := Scan(a), Feed(c, chunk);
      assert Consumed(c.pending, chunk) == r;
      assert c.pending + Concat(chunks) == a + more;
      ScanSplit(a, more);
      if r.terminal.Some? {
        StopsAtTerminal(d, chunks[1..]);
      } else {
        ScanLeaves(a);
        RunIsScan(d, chunks[1..]);
        var q := Scan(r.rest + more);
        assert c.progress + r.progress + q.progress == c.progress + (r.progress + q.progress);
      }
    }
  }

  /** What a scan leaves behind holds no line of its own. */
  lemma {:induction false} ScanLeaves(s: string)
    ensures Scan(s).terminal.None? ==> Scan(Scan(s).rest) == Scanned([], None, Scan(s).rest)
    decreases |s|
  {
    hide Find, IsProgress, IsTerminal, Strip;
    var nl := Find(s, '\n', 0);
    if nl.Some? { ScanLeaves(s[nl.value + 1..]); }
  }

  /** The promise: under every cutting of the stream into chunks the client sees the progress lines
      and the terminal line of the batch reading, and what follows the terminal line stays pending
      or unread. */
  lemma ChunkingDoesNotMatter(chunks: seq<string>)
    requires NeverOverflows(Client("", [], None), chunks)
    ensures var start := Client("", [], None);
            var t, r := FeedAll(start, chunks), Batch(Concat(chunks));
            t.progress == r.progress && t.terminal == r.terminal
            && t.pending + Unread(start, chunks) == r.rest
  {
    var start, all := Client("", [], None), Concat(chunks);
    RunIsScan(start, chunks);
    assert "" + all == all;
    ScanIsBatch(all);
    var r := Scan(all);
    assert [] + r.progress == r.progress;
  }

  /** When the limit cannot strike: no chunk longer than `most`, and no line longer than what
      1 MiB leaves beside it. */
  lemma {:induction false} ShortLinesNeverOverflow(c: Client, chunks: seq<string>, most: nat)
    requires most <= MAX_PENDING && (forall i :: 0 <= i < |chunks| ==> |chunks[i]| <= most)
    requires c.terminal.None? && '\n' !in c.pending
    requires NoLongRun(c.pending + Concat(chunks), MAX_PENDING - most)
    ensures NeverOverflows(c, chunks)
    decreases |chunks|
  {
    hide Scan;
    if chunks != [] {
      var s, a := c.pending + Concat(chunks), c.pending + chunks[0];
      assert s[0..|c.pending|] == c.pending;
      assert |c.pending| <= MAX_PENDING - most;
      var d := Feed(c, chunks[0]);
      assert Consumed(c.pending, chunks[0]) == Scan(a);
      if d.terminal.None? {
        ScanLeavesSuffix(a);
        var r, more := Scan(a).rest, Concat(chunks[1..]);
        assert s == a + more;
        var k := |a| - |r|;
        assert s[k..] == r + more;
        NoLongRunSuffix(s, k, MAX_PENDING - most);
        ShortLinesNeverOverflow(d, chunks[1..], most);
      }
    }
  }

  /** Any newline-free stretch of s has at most n characters. */
  ghost predicate NoLongRun(s: string, n: nat) {
    forall i, j :: 0 <= i <= j <= |s| && '\n' !in s[i..j] ==> j - i <= n
  }

  lemma NoLongRunSuffix(s: string, k: nat, n: nat)
    requires k <= |s| && NoLongRun(s, n)
    ensures NoLongRun(s[k..], n)
  {
    forall i, j | 0 <= i <= j <= |s[k..]| && '\n' !in s[k..][i..j] ensures j - i <= n {
      assert s[k..][i..j] == s[k + i..k + j];
    }
  }

  lemma {:induction false} ScanLeavesSuffix(s: string)
    ensures var r := Scan(s).rest;
            |r| <= |s| && s[|s| - |r|..] == r && (Scan(s).terminal.None? ==> '\n' !in r)
    decreases |s|
  {
    hide Find, IsProgress, IsTerminal, Strip, Scan;
    var nl := Find(s, '\n', 0);
    if nl.Some? {
      var t := s[nl.value + 1..];
      ScanLeavesSuffix(t);
      ScanFirstLine(s, nl.value);
      SuffixOfSuffix(s, nl.value + 1, Scan(t).rest);
      assert s[|s| - |t|..] == t;
    } else {
      ScanNoLine(s);
      assert s[0..] == s;
    }
  }

  lemma SuffixOfSuffix(s: string, k: nat, r: string)
    requires k <= |s| && |r| <= |s[k..]| && s[k..][|s[k..]| - |r|..] == r
    ensures s[|s| - |r|..] == r
  {
    assert s[k..][|s[k..]| - |r|..] == s[|s| - |r|..];
  }

  // ── One exchange, as the daemon writes it ─────────────────────────────────────

  /** A line with its end, which may have a carriage return. */
  function Ended(line: (string, bool)): string { line.0 + if line.1 then "\r\n" else "\n" }

  function Written(lines: seq<(string, bool)>): string {
    if lines == [] then "" else Ended(lines[0]) + Written(lines[1..])
  }

  function Announced(lines: seq<(string, bool)>): seq<string> {
    if lines == [] then []
    else (if |lines[0].0| >= 9 && lines[0].0[..9] == "PROGRESS " then [lines[0].0] else []) + Announced(lines[1..])
  }

  predicate OneLine(line: (string, bool)) {
    '\n' !in line.0 && (line.1 || line.0 == "" || line.0[|line.0| - 1] != '\r')
  }

  predicate EndsExchange(line: string) {
    (|line| >= 3 && line[..3] == "OK ") || (|line| >= 5 && line[..5] == "ERROR")
  }

  lemma Kinds(line: string)
    ensures IsProgress(line) <==> |line| >= 9 && line[..9] == "PROGRESS "
    ensures IsTerminal(line) <==> EndsExchange(line)
  {
    assert |line| >= 9 && line[..9] == "PROGRESS " ==> line[0] == "PROGRESS "[0];
    assert EndsExchange(line) ==> line[0] == "OK "[0] || line[0] == "ERROR"[0];
  }

  lemma EndedLine(line: (string, bool), rest: string)
    requires OneLine(line)
    ensures var s := Ended(line) + rest;
            && Find(s, '\n', 0).Some?
            && var n := Find(s, '\n', 0).value; Strip(s[..n]) == line.0 && s[n + 1..] == rest
  {
    var s := Ended(line) + rest;
    var n := |line.0| + if line.1 then 1 else 0;
    var start := if line.1 then line.0 + "\r" else line.0;
    assert s[0..n] == start && '\n' !in start;
    FindFirst(s, 0, n);
    assert s[..n] == start;
    assert s[n + 1..] == rest;
  }

  /** One line more at the front of a text. */
  lemma LineFirst(line: (string, bool), rest: string)
    requires OneLine(line)
    ensures EndsExchange(line.0) ==> Batch(Ended(line) + rest) == Scanned([], Some(line.0), rest)
    ensures !EndsExchange(line.0) ==>
              Batch(Ended(line) + rest)
              == Prepend(if |line.0| >= 9 && line.0[..9] == "PROGRESS " then [line.0] else [], Batch(rest))
  {
    hide Find, Strip, IsProgress, IsTerminal, OneLine, EndsExchange, Batch, Ended;
    EndedLine(line, rest);
    Kinds(line.0);
    BatchStep(Ended(line) + rest);
  }

  /** Whatever lines come first, the exchange ends with the first one that starts with "OK " or "ERROR"; of the
      others those that start with "PROGRESS " are handed on, and what follows the last one is left. */
  lemma {:induction false} ExchangeIsRead(lines: seq<(string, bool)>, last: (string, bool), rest: string)
    requires forall l :: l in lines ==> OneLine(l) && !EndsExchange(l.0)
    requires OneLine(last) && EndsExchange(last.0)
    ensures Batch(Written(lines) + Written([last]) + rest) == Scanned(Announced(lines), Some(last.0), rest)
    decreases |lines|
  {
    hide OneLine, EndsExchange, Batch, Ended;
    assert Written([last]) == Ended(last) + "";
    if lines == [] {
      LineFirst(last, rest);
      assert Written([]) + Written([last]) + rest == Ended(last) + rest;
    } else {
      var more := Written(lines[1..]) + Written([last]) + rest;
      assert Written(lines) + Written([last]) + rest == Ended(lines[0]) + more;
      assert lines[0] in lines;
      LineFirst(lines[0], more);
      ExchangeIsRead(lines[1..], last, rest);
    }
  }
}
