/** The scrollback ring of bs-session.h against the unbounded history it stands for, and the
    SCROLLBACK polling protocol of bs-mesh-cli.h on top. */
module Scrollback {
  import opened Bytes
  import opened Sequences

  /** The last n characters, or all of them. */
  function LastN(h: string, n: nat): (s: string)
    ensures |s| == Min(|h|, n)
  {
    if |h| <= n then h else h[|h| - n..]
  }

  /** read_since's cap on one answer. */
  const MAX_READ: nat := 64 * 1024

  /** What read_since answers: the unread characters, or only the newest ones, with a mark. */
  function SinceSpec(h: string, capacity: nat, since: nat): (string, bool) {
    if since >= |h| then ("", false)
    else
      var unread := |h| - since;
      (LastN(h, Min(unread, Min(capacity, 65536))), unread > Min(capacity, 65536))
  }

  // ── Lines ─────────────────────────────────────────────────────────────────────

  /** The lines of a text, each with the newline that ends it; the last may lack one. */
  function Lines(s: string): seq<string> {
    if s == "" then [] else PutFirst(s[0], Lines(s[1..]))
  }

  /** A newline is a line of its own front end; any other character starts the line that follows. */
  function PutFirst(c: char, ls: seq<string>): seq<string> {
    if c == '\n' || ls == [] then [[c]] + ls else [[c] + ls[0]] + ls[1..]
  }

  function LastLines(s: string, n: nat): string {
    var ls := Lines(s);
    Concat(if |ls| <= n then ls else ls[|ls| - n..])
  }

  /** The newlines at or after position i. */
  function NewlinesFrom(s: string, i: nat): nat
    requires i <= |s|
    decreases |s| - i
  {
    if i == |s| then 0 else (if s[i] == '\n' then 1 else 0) + NewlinesFrom(s, i + 1)
  }

  lemma PutFirstShape(c: char, ls: seq<string>)
    requires forall k :: 0 <= k < |ls| ==> ls[k] != ""
    ensures var r := PutFirst(c, ls);
            && Concat(r) == [c] + Concat(ls)
            && (forall k :: 0 <= k < |r| ==> r[k] != "")
            && |r| == if c == '\n' || ls == [] then |ls| + 1 else |ls|
  {
    var r := PutFirst(c, ls);
    if c == '\n' || ls == [] {
      assert r[1..] == ls;
    } else {
      assert r[0] == [c] + ls[0] && r[1..] == ls[1..];
      assert [c] + ls[0] + Concat(ls[1..]) == [c] + (ls[0] + Concat(ls[1..]));
    }
  }

  lemma {:induction false} LinesShape(s: string)
    ensures Concat(Lines(s)) == s
    ensures forall k :: 0 <= k < |Lines(s)| ==> Lines(s)[k] != ""
    ensures s != "" ==> |Lines(s)| == NewlinesFrom(s, 0) + if s[|s| - 1] == '\n' then 0 else 1
  {
    hide PutFirst, Concat;
    ConcatNone();
    if s != "" {
      LinesShape(s[1..]);
      NewlinesTail(s, 1);
      PutFirstShape(s[0], Lines(s[1..]));
      assert [s[0]] + s[1..] == s;
      if |s| > 1 { assert s[1..][|s| - 2] == s[|s| - 1]; }
    }
  }

  lemma ConcatNone()
    ensures Concat([]) == ""
  {
  }

  lemma {:induction false} NewlinesTail(s: string, i: nat)
    requires i <= |s|
    ensures NewlinesFrom(s, i) == NewlinesFrom(s[i..], 0)
  {
    NewlinesShift(s, i, 0);
  }

  lemma {:induction false} NewlinesShift(s: string, i: nat, j: nat)
    requires i + j <= |s|
    ensures NewlinesFrom(s, i + j) == NewlinesFrom(s[i..], j)
    decreases |s| - j
  {
    if i + j < |s| {
      NewlinesShift(s, i, j + 1);
    }
  }

  lemma PutFirstBefore(c: char, ls: seq<string>, ms: seq<string>)
    requires c == '\n' || ls != []
    ensures PutFirst(c, ls + ms) == PutFirst(c, ls) + ms
  {
    if c != '\n' { assert (ls + ms)[0] == ls[0] && (ls + ms)[1..] == ls[1..] + ms; }
  }

  /** Cutting right after a newline cuts the list of lines. */
  lemma {:induction false} LinesAfterNewline(a: string, b: string)
    requires a == "" || a[|a| - 1] == '\n'
    ensures Lines(a + b) == Lines(a) + Lines(b)
  {
    hide PutFirst;
    var s := a + b;
    if a == "" {
      assert s == b;
    } else {
      assert s[0] == a[0] && s[1..] == a[1..] + b;
      if |a| > 1 { assert a[1..][|a| - 2] == a[|a| - 1]; }
      LinesAfterNewline(a[1..], b);
      LinesShape(a[1..]);
      if a[1..] == "" { assert a[0] == '\n'; }
      PutFirstBefore(a[0], Lines(a[1..]), Lines(b));
    }
  }

  /** The whole text, if it has no more lines than asked for. */
  lemma AllLines(s: string, n: nat)
    requires |Lines(s)| <= n
    ensures LastLines(s, n) == s
  {
    LinesShape(s);
    hide Lines, Concat;
  }

  lemma LinesBehind(a: string, b: string, n: nat)
    requires a != "" && a[|a| - 1] == '\n' && |Lines(b)| == n
    ensures LastLines(a + b, n) == b
  {
    LinesAfterNewline(a, b);
    LinesShape(b);
    hide Lines, Concat;
    assert (Lines(a) + Lines(b))[|Lines(a)|..] == Lines(b);
    if Lines(a) == [] { assert Lines(a) + Lines(b) == Lines(b); }
  }

  lemma NewlineHere(s: string, i: nat)
    requires i < |s| && s[i] == '\n'
    ensures NewlinesFrom(s, i) == 1 + NewlinesFrom(s[i + 1..], 0)
    ensures i == |s| - 1 ==> NewlinesFrom(s, i) == 1
  {
    NewlinesTail(s, i + 1);
  }

  /** Where the backward scan stops: after the newline that ends the line before the last n. */
  lemma LastLinesCut(s: string, n: nat, cut: nat)
    requires s != "" && n > 0 && cut <= |s|
    requires var target := if s[|s| - 1] == '\n' then n + 1 else n;
             if cut == 0 then NewlinesFrom(s, 0) < target
             else s[cut - 1] == '\n' && NewlinesFrom(s, cut - 1) == target
    ensures LastLines(s, n) == s[cut..]
  {
    hide Lines, NewlinesFrom, LastLines, Concat;
    if cut == 0 {
      LinesShape(s);
      AllLines(s, n);
      assert s[0..] == s;
    } else {
      NewlineHere(s, cut - 1);
      var a, b := s[..cut], s[cut..];
      assert s == a + b;
      LinesShape(b);
      assert b[|b| - 1] == s[|s| - 1];
      LinesBehind(a, b, n);
    }
  }

  // ── The ring ──────────────────────────────────────────────────────────────────

  /** Where the character with absolute position q lives (`q & kMask`). */
  function Slot(q: nat, capacity: nat): (i: nat)
    requires capacity > 0
    ensures i < capacity
  {
    q % capacity
  }

  /** The buffer b holds the end of the history h, each character at its slot. */
  ghost predicate Holds(b: string, h: string) {
    |b| > 0 && forall q :: 0 <= q < |h| && |h| - |b| <= q ==> b[Slot(q, |b|)] == h[q]
  }

  function Overwritten(b: string, at: nat, src: string): (r: string)
    requires at + |src| <= |b|
    ensures |r| == |b|
    ensures forall k :: 0 <= k < |b| ==> r[k] == if at <= k < at + |src| then src[k - at] else b[k]
  {
    b[..at] + src + b[at + |src|..]
  }

  /** memcpy into a character array. */
  method CopyInto(dst: array<char>, at: nat, src: string)
    requires at + |src| <= dst.Length
    modifies dst
    ensures dst[..] == Overwritten(old(dst[..]), at, src)
  {
    forall k | 0 <= k < |src| {
      dst[at + k] := src[k];
    }
  }

  class RingBuffer {
    const capacity: nat
    var buf: array<char>
    var writePos: nat
    /** Everything written since the last clear; the ring only keeps its end. */
    ghost var history: string

    ghost predicate Valid()
      reads this, buf
    {
      && capacity > 0
      && buf.Length == capacity
      && writePos == |history|
      && Holds(buf[..], history)
    }

    constructor (capacity: nat)
      requires capacity > 0
      ensures Valid() && fresh(buf) && this.capacity == capacity && history == ""
    {
      this.capacity := capacity;
      buf := new char[capacity];
      writePos := 0;
      history := "";
    }

    method Write(data: string)
      requires Valid()
      modifies this`writePos, this`history, buf
      ensures Valid() && buf == old(buf)
      ensures history == old(history) + data
    {
      hide Slot, Holds, Overwritten;
      if |data| == 0 { assert history + data == history; return; }
      ghost var before := buf[..];
      var pos, len := writePos, |data|;
      if len >= capacity {
        var tail := data[len - capacity..];
        var newPos := pos + len;
        var idx := Slot(newPos, capacity);
        var first := capacity - idx;
        CopyInto(buf, idx, tail[..first]);
        CopyInto(buf, 0, tail[first..]);
        writePos := newPos;
        RotatedTail(before, history, data);
        history := history + data;
        return;
      }
      var idx := Slot(pos, capacity);
      var spaceToEnd := capacity - idx;
      if len <= spaceToEnd {
        CopyInto(buf, idx, data);
      } else {
        CopyInto(buf, idx, data[..spaceToEnd]);
        CopyInto(buf, 0, data[spaceToEnd..]);
      }
      writePos := pos + len;
      Appended(before, history, data);
      history := history + data;
    }

    /** The copy in reading order that snapshot, read_last_lines and read_range each make. */
    method Linear() returns (linear: string)
      requires Valid()
      ensures linear == LastN(history, capacity)
    {
      hide Slot, Holds;
      var wp := writePos;
      if wp <= capacity {
        linear := buf[..wp];
        assert linear == buf[..][..wp];
        InOrderUnwrapped(buf[..], history);
      } else {
        var idx := Slot(wp, capacity);
        linear := buf[idx..] + buf[..idx];
        assert linear == buf[..][idx..] + buf[..][..idx];
        InOrderWrapped(buf[..], history);
      }
    }

    method Snapshot() returns (s: string)
      requires Valid()
      ensures s == LastN(history, capacity)
    {
      s := Linear();
    }

    method TotalWritten() returns (n: nat)
      requires Valid()
      ensures n == |history|
    {
      n := writePos;
    }

    method ReadSince(since: nat) returns (chunk: string, reset: bool)
      requires Valid()
      ensures (chunk, reset) == SinceSpec(history, capacity, since)
    {
      hide Slot, Holds, LastN, SinceSpec;
      SinceIs(history, capacity, since);
      var wp := writePos;
      if since >= wp { return "", false; }
      var start := since;
      reset := false;
      if wp > capacity && start < wp - capacity {
        start := wp - capacity;
        reset := true;
      }
      if wp - start > MAX_READ {
        start := wp - MAX_READ;
        reset := true;
      }
      var n := wp - start;
      var idx := Slot(start, capacity);
      var tail := capacity - idx;
      if n <= tail {
        chunk := buf[idx..idx + n];
      } else {
        chunk := buf[idx..] + buf[..n - tail];
      }
      assert chunk == Segment(buf[..], idx, n);
      InOrder(buf[..], history, start, n);
    }

    method ReadLastLines(numLines: nat) returns (s: string)
      requires Valid()
      ensures s == LastLines(LastN(history, capacity), numLines)
    {
      hide Slot, Holds, LastLines, NewlinesFrom;
      if numLines == 0 {
        LastNone(LastN(history, capacity));
        return "";
      }
      var linear := Linear();
      var n := |linear|;
      if n == 0 {
        LastLinesOfNothing(numLines);
        return "";
      }
      var target := if linear[n - 1] == '\n' then numLines + 1 else numLines;
      var found, cut, i := 0, n, n - 1;
      NewlinesStep(linear, n);
      while i >= 0
        invariant -1 <= i < n && found < target
        invariant found == NewlinesFrom(linear, i + 1)
      {
        NewlinesStep(linear, i);
        if linear[i] == '\n' {
          found := found + 1;
          if found >= target {
            cut := i + 1;
            LastLinesCut(linear, numLines, cut);
            return linear[cut..];
          }
        }
        i := i - 1;
      }
      cut := 0;
      LastLinesCut(linear, numLines, cut);
      return linear[cut..];
    }

    method ReadRange(offset: nat, length: nat) returns (s: string)
      requires Valid()
      ensures var w := LastN(history, capacity);
              s == if offset >= |w| then "" else w[offset..offset + Min(length, |w| - offset)]
    {
      var n := Min(writePos, capacity);
      if offset >= n { return ""; }
      var actual := Min(length, n - offset);
      var linear := Linear();
      s := linear[offset..offset + actual];
    }

    method Clear()
      requires Valid()
      modifies this`writePos, this`history
      ensures Valid() && buf == old(buf) && history == ""
    {
      writePos := 0;
      history := "";
    }

    /** The SCROLLBACK verb: the chunk, its RESET mark, and the offset to ask from next. */
    method Poll(since: nat) returns (answer: Answer)
      requires Valid()
      ensures answer == PollSpec(history, capacity, since)
    {
      var chunk, reset := ReadSince(since);
      var newOffset := if reset then writePos else since + |chunk|;
      answer := Answer(newOffset, chunk, reset);
    }
  }

  lemma SinceIs(h: string, capacity: nat, since: nat)
    ensures since >= |h| ==> SinceSpec(h, capacity, since) == ("", false)
    ensures since < |h| ==>
              var n := Min(|h| - since, Min(capacity, 65536));
              SinceSpec(h, capacity, since) == (LastN(h, n), n < |h| - since)
  {
  }

  lemma LastLinesOfNothing(n: nat)
    ensures LastLines("", n) == ""
  {
  }

  lemma NewlinesStep(s: string, i: nat)
    requires i <= |s|
    ensures NewlinesFrom(s, i) == if i == |s| then 0 else (if s[i] == '\n' then 1 else 0) + NewlinesFrom(s, i + 1)
  {
  }

  lemma LastNone(s: string)
    ensures LastLines(s, 0) == ""
  {
    var ls := Lines(s);
    assert ls[|ls|..] == [];
  }

  /** Positions at most `capacity` apart: how the slot of the later one follows from the other's. */
  lemma SlotOf(from: nat, q: nat, capacity: nat)
    requires capacity > 0 && from <= q <= from + capacity
    ensures var i := Slot(from, capacity) + (q - from);
            Slot(q, capacity) == if i < capacity then i else i - capacity
  {
    var m, r := from / capacity, from % capacity;
    var i := r + (q - from);
    assert q == m * capacity + i;
    if i < capacity {
      DivMod(q, capacity, m, i);
    } else {
      assert (m + 1) * capacity == m * capacity + capacity;
      if i - capacity < capacity { DivMod(q, capacity, m + 1, i - capacity); }
    }
  }

  /** An oversize write: the last |b| characters, rotated to their slots. */
  lemma RotatedTail(b: string, h: string, data: string)
    requires |b| > 0 && |data| >= |b|
    ensures var tail, idx := data[|data| - |b|..], Slot(|h| + |data|, |b|);
            var first := |b| - idx;
            Holds(Overwritten(Overwritten(b, idx, tail[..first]), 0, tail[first..]), h + data)
  {
    hide Slot, Overwritten;
    var h', n := h + data, |b|;
    var tail, idx := data[|data| - n..], Slot(|h'|, n);
    var first := n - idx;
    var r := Overwritten(Overwritten(b, idx, tail[..first]), 0, tail[first..]);
    forall q | 0 <= q < |h'| && |h'| - n <= q ensures r[Slot(q, n)] == h'[q] {
      SlotOf(|h'| - n, q, n);
      SlotOf(|h'| - n, |h'|, n);
      assert h'[q] == data[q - |h|] == tail[q - (|h'| - n)];
    }
  }

  /** A write that fits: in one piece, or wrapped around the end. */
  lemma Appended(b: string, h: string, data: string)
    requires Holds(b, h) && |data| < |b|
    ensures var idx := Slot(|h|, |b|);
            var space := |b| - idx;
            Holds(if |data| <= space then Overwritten(b, idx, data)
                  else Overwritten(Overwritten(b, idx, data[..space]), 0, data[space..]), h + data)
  {
    hide Slot, Overwritten;
    var h', n, idx := h + data, |b|, Slot(|h|, |b|);
    var space := n - idx;
    var r := if |data| <= space then Overwritten(b, idx, data)
             else Overwritten(Overwritten(b, idx, data[..space]), 0, data[space..]);
    forall q | 0 <= q < |h'| && |h'| - n <= q ensures r[Slot(q, n)] == h'[q] {
      if q >= |h| {
        SlotOf(|h|, q, n);
        assert h'[q] == data[q - |h|];
      } else {
        SlotOf(q, |h|, n);
        assert h'[q] == h[q];
      }
    }
  }

  /** n characters from slot idx on, across the end of the buffer or not. */
  function Segment(b: string, idx: nat, n: nat): string
    requires idx < |b| && n <= |b|
  {
    if n <= |b| - idx then b[idx..idx + n] else b[idx..] + b[..n - (|b| - idx)]
  }

  lemma SegmentAt(b: string, from: nat, n: nat, k: nat)
    requires k < n <= |b|
    ensures var s := Segment(b, Slot(from, |b|), n);
            |s| == n && s[k] == b[Slot(from + k, |b|)]
  {
    hide Slot;
    SlotOf(from, from + k, |b|);
  }

  lemma InOrder(b: string, h: string, from: nat, n: nat)
    requires Holds(b, h) && from + n == |h| && n <= |b|
    ensures Segment(b, Slot(from, |b|), n) == LastN(h, n)
  {
    hide Slot, Segment;
    var s := Segment(b, Slot(from, |b|), n);
    SegmentLength(b, from, n);
    forall k | 0 <= k < n ensures s[k] == LastN(h, n)[k] {
      SegmentAt(b, from, n, k);
      assert b[Slot(from + k, |b|)] == h[from + k];
    }
  }

  lemma SegmentLength(b: string, from: nat, n: nat)
    requires |b| > 0 && n <= |b|
    ensures |Segment(b, Slot(from, |b|), n)| == n
  {
    hide Slot;
  }

  /** Before the first wrap the text stands at the front. */
  lemma InOrderUnwrapped(b: string, h: string)
    requires Holds(b, h) && |h| <= |b|
    ensures b[..|h|] == h
  {
    hide Slot;
    forall k | 0 <= k < |h| ensures b[k] == h[k] {
      SlotOfZero(|b|);
      SlotOf(0, k, |b|);
      assert b[Slot(k, |b|)] == h[k];
    }
  }

  /** After it, the whole buffer is read from the oldest slot around. */
  lemma InOrderWrapped(b: string, h: string)
    requires Holds(b, h) && |h| >= |b|
    ensures var idx := Slot(|h|, |b|);
            b[idx..] + b[..idx] == LastN(h, |b|)
  {
    hide Slot, Holds;
    var from := |h| - |b|;
    InOrder(b, h, from, |b|);
    SlotOf(from, |h|, |b|);
  }

  lemma SlotOfZero(capacity: nat)
    requires capacity > 0
    ensures Slot(0, capacity) == 0
  {
  }

  // ── Polling over whole runs ───────────────────────────────────────────────────

  datatype Answer = Answer(newOffset: nat, chunk: string, reset: bool)

  function PollSpec(h: string, capacity: nat, since: nat): Answer {
    var (chunk, reset) := SinceSpec(h, capacity, since);
    Answer(if reset then |h| else since + |chunk|, chunk, reset)
  }

  datatype Event = Wrote(data: string) | Polled

  /** A client that follows the returned offset: the history, its cursor and the answers so far. */
  datatype Run = Run(history: string, cursor: nat, answers: seq<Answer>)

  function Step(r: Run, e: Event, capacity: nat): Run {
    match e
    case Wrote(data) => r.(history := r.history + data)
    case Polled =>
      var a := PollSpec(r.history, capacity, r.cursor);
      r.(cursor := a.newOffset, answers := r.answers + [a])
  }

  function RunAll(r: Run, es: seq<Event>, capacity: nat): Run
    decreases |es|
  {
    if es == [] then r else RunAll(Step(r, es[0], capacity), es[1..], capacity)
  }

  /** The chunks since the last RESET, that answer's included. */
  function SinceReset(answers: seq<Answer>): string {
    if answers == [] then ""
    else
      var last := answers[|answers| - 1];
      if last.reset then last.chunk else SinceReset(answers[..|answers| - 1]) + last.chunk
  }

  function AllChunks(answers: seq<Answer>): string {
    if answers == [] then "" else AllChunks(answers[..|answers| - 1]) + answers[|answers| - 1].chunk
  }

  /** One poll inside the history. */
  lemma PollIsFaithful(h: string, capacity: nat, since: nat)
    requires capacity > 0 && since <= |h|
    ensures var a := PollSpec(h, capacity, since);
            && a.newOffset == |h|
            && (a.reset <==> |h| - since > Min(capacity, 65536))
            && a.chunk == if a.reset then h[|h| - Min(capacity, 65536)..] else h[since..]
  {
  }

  predicate NoReset(answers: seq<Answer>) {
    forall i :: 0 <= i < |answers| ==> !answers[i].reset
  }

  ghost predicate Faithful(r: Run, from: nat) {
    && r.cursor <= |r.history|
    && Ends(SinceReset(r.answers), r.history, r.cursor)
    && (NoReset(r.answers) ==> from <= r.cursor && AllChunks(r.answers) == r.history[from..r.cursor])
  }

  /** The characters of h that end at position i are s. */
  ghost predicate Ends(s: string, h: string, i: nat) {
    |s| <= i <= |h| && s == h[i - |s|..i]
  }

  lemma WroteIsFaithful(r: Run, data: string, from: nat)
    requires from <= |r.history| && Faithful(r, from)
    ensures Faithful(r.(history := r.history + data), from)
  {
    var h, s := r.history + data, SinceReset(r.answers);
    assert h[..|r.history|] == r.history;
    assert h[r.cursor - |s|..r.cursor] == r.history[r.cursor - |s|..r.cursor];
    if NoReset(r.answers) { assert h[from..r.cursor] == r.history[from..r.cursor]; }
  }

  lemma EndsOn(s: string, h: string, i: nat, t: string)
    requires Ends(s, h, i) && t == h[i..]
    ensures Ends(s + t, h, |h|)
  {
  }

  lemma AnswerAdded(answers: seq<Answer>, a: Answer)
    ensures SinceReset(answers + [a]) == if a.reset then a.chunk else SinceReset(answers) + a.chunk
    ensures AllChunks(answers + [a]) == AllChunks(answers) + a.chunk
    ensures NoReset(answers + [a]) <==> NoReset(answers) && !a.reset
  {
    var all := answers + [a];
    assert all[..|all| - 1] == answers && all[|answers|] == a;
    if NoReset(all) {
      forall i | 0 <= i < |answers| ensures !answers[i].reset { assert all[i] == answers[i]; }
    }
  }

  lemma PolledStep(r: Run, capacity: nat)
    requires capacity > 0 && r.cursor <= |r.history|
    ensures var a := PollSpec(r.history, capacity, r.cursor);
            Step(r, Polled, capacity) == r.(cursor := |r.history|, answers := r.answers + [a])
  {
    PollIsFaithful(r.history, capacity, r.cursor);
    hide PollSpec;
  }

  lemma WholeEnds(h: string, s: string)
    requires |s| <= |h| && s == h[|h| - |s|..]
    ensures Ends(s, h, |h|)
  {
  }

  lemma PolledIsFaithful(r: Run, capacity: nat, from: nat)
    requires capacity > 0 && from <= |r.history| && Faithful(r, from)
    ensures Faithful(Step(r, Polled, capacity), from)
  {
    hide PollSpec, Step, Ends, SinceReset, AllChunks, NoReset;
    var h, a := r.history, PollSpec(r.history, capacity, r.cursor);
    PolledStep(r, capacity);
    AnswerAdded(r.answers, a);
    PollIsFaithful(h, capacity, r.cursor);
    if a.reset {
      WholeEnds(h, a.chunk);
    } else {
      EndsOn(SinceReset(r.answers), h, r.cursor, a.chunk);
      if NoReset(r.answers) { assert h[from..r.cursor] + h[r.cursor..] == h[from..|h|]; }
    }
  }

  lemma StepIsFaithful(r: Run, e: Event, capacity: nat, from: nat)
    requires capacity > 0 && from <= |r.history| && Faithful(r, from)
    ensures from <= |Step(r, e, capacity).history| && Faithful(Step(r, e, capacity), from)
  {
    hide Faithful;
    match e
    case Wrote(data) => WroteIsFaithful(r, data, from);
    case Polled => PolledIsFaithful(r, capacity, from);
  }

  lemma {:induction false} RunIsFaithful(r: Run, es: seq<Event>, capacity: nat, from: nat)
    requires capacity > 0 && from <= |r.history| && Faithful(r, from)
    ensures Faithful(RunAll(r, es, capacity), from)
    decreases |es|
  {
    if es != [] {
      StepIsFaithful(r, es[0], capacity, from);
      RunIsFaithful(Step(r, es[0], capacity), es[1..], capacity, from);
    }
  }

  /** Over any interleaving of writes and polls, from any offset inside the history: without a
      RESET the chunks are exactly the characters between the first offset and the last; after a
      RESET they are exactly the characters that end at the cursor. */
  lemma PollingIsFaithful(h: string, from: nat, es: seq<Event>, capacity: nat)
    requires capacity > 0 && from <= |h|
    ensures Faithful(RunAll(Run(h, from, []), es, capacity), from)
  {
    assert Ends("", h, from);
    RunIsFaithful(Run(h, from, []), es, capacity, from);
  }

  /** The bound on the offset is needed: past the end (a ring that was cleared) the client is told
      to stay where it is, and characters below its offset are never delivered. */
  lemma StaleOffsetStalls(h: string, capacity: nat, since: nat)
    requires capacity > 0
    ensures PollSpec(h, capacity, since).newOffset == |h| <==> since <= |h|
    ensures since > |h| ==> PollSpec(h, capacity, since) == Answer(since, "", false)
  {
  }
}
