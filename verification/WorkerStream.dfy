/** The pipe between the daemon and a session worker (bs-pty.h, bs-session-worker.h): length-prefixed
    frames, queued through partial writes in both directions; and what the daemon reassembles of the
    worker's from partial reads. */
module WorkerStream {
  import opened Bytes

  const MAX_FRAME := 16 * 1024 * 1024
  const RUNAWAY := 32 * 1024 * 1024

  const WMSG_OUTPUT: Byte := 0x81
  const WMSG_SCROLLBACK: Byte := 0x82
  const WMSG_DIED: Byte := 0x83

  // ── The wire format: [type:1][len:4be][payload] ───────────────────────────────

  datatype Frame = Frame(kind: Byte, payload: seq<Byte>) {
    predicate Fits() { |payload| <= 16777216 }

    predicate IsDeath() { kind == WMSG_DIED }
  }

  function Wire(f: Frame): (s: seq<Byte>)
    requires f.Fits()
    ensures |s| == 5 + |f.payload|
  {
    [f.kind] + Be32(|f.payload|) + f.payload
  }

  predicate AllFit(fs: seq<Frame>) {
    forall i :: 0 <= i < |fs| ==> fs[i].Fits()
  }

  function WireAll(fs: seq<Frame>): seq<Byte>
    requires AllFit(fs)
  {
    if fs == [] then [] else Wire(fs[0]) + WireAll(fs[1..])
  }

  // ── What frames mean to the daemon ────────────────────────────────────────────

  /** static_cast<int32_t>. */
  function ToInt32(v: int): (r: int)
    ensures 0 <= v < 0x1_0000_0000 ==> -0x8000_0000 <= r < 0x8000_0000
    ensures (v - r) % 0x1_0000_0000 == 0
  {
    if v >= 0x8000_0000 then v - 0x1_0000_0000 else v
  }

  datatype Exit = Exit(code: int, signal: int)

  /** What has come out of a stream so far; exit is the last one a DIED frame recorded. */
  datatype Heard = Heard(output: seq<Byte>, scrollback: seq<Byte>, exit: Option<Exit>, death: bool)

  const Silence := Heard([], [], None, false)

  function Hear(h: Heard, f: Frame): Heard {
    if f.kind == WMSG_OUTPUT then h.(output := h.output + f.payload)
    else if f.kind == WMSG_SCROLLBACK then h.(scrollback := h.scrollback + f.payload)
    else if f.IsDeath() then
      h.(death := true,
         exit := if |f.payload| >= 8 then Some(Exit(ToInt32(ReadU32(f.payload)), ToInt32(ReadU32(f.payload[4..])))) else h.exit)
    else h
  }

  function HearAll(h: Heard, fs: seq<Frame>): Heard
    decreases |fs|
  {
    if fs == [] then h else HearAll(Hear(h, fs[0]), fs[1..])
  }

  // ── Parsing a byte stream ─────────────────────────────────────────────────────

  /** What the parse loop leaves: what was heard, the unread bytes, and whether a length above
      16 MiB showed the stream to be out of step. */
  datatype Parsed = Parsed(heard: Heard, rest: seq<Byte>, desync: bool)

  function DeclaredLength(b: seq<Byte>): int
    requires |b| >= 5
  {
    ReadU32(b[1..5])
  }

  predicate FrameReady(b: seq<Byte>) {
    |b| >= 5 && DeclaredLength(b) <= 16777216 && |b| - 5 >= DeclaredLength(b)
  }

  predicate OutOfStep(b: seq<Byte>) {
    |b| >= 5 && DeclaredLength(b) > 16777216
  }

  lemma DeclaredLengthIsNat(b: seq<Byte>)
    requires |b| >= 5
    ensures 0 <= DeclaredLength(b) < 0x1_0000_0000
  {
  }

  function FirstFrame(b: seq<Byte>): Frame
    requires FrameReady(b)
  {
    DeclaredLengthIsNat(b);
    Frame(b[0], b[5..5 + DeclaredLength(b)])
  }

  function Parse(h: Heard, b: seq<Byte>): Parsed
    decreases |b|
  {
    if FrameReady(b) then
      DeclaredLengthIsNat(b);
      Parse(Hear(h, FirstFrame(b)), b[5 + DeclaredLength(b)..])
    else Parsed(h, b, OutOfStep(b))
  }

  // ── The session ───────────────────────────────────────────────────────────────

  /** One ::read on the worker socket. */
  datatype Read = Data(bytes: seq<Byte>) | Interrupted | WouldBlock | Ended

  /** The bytes of one call's reads, up to the read that stops it. */
  function Received(rs: seq<Read>): seq<Byte> {
    if rs == [] || rs[0].WouldBlock? || rs[0].Ended? then []
    else (if rs[0].Data? then rs[0].bytes else []) + Received(rs[1..])
  }

  /** The reads stop at an end of file or a hard error. */
  predicate Ends(rs: seq<Read>) {
    rs != [] && !rs[0].WouldBlock? && (rs[0].Ended? || Ends(rs[1..]))
  }

  /** One ::write on it; an accepted write takes at least one byte. */
  datatype Write = Accepted(n: nat) | WriteInterrupted | WriteWouldBlock | WriteFailed

  class Session {
    var hosted: bool
    var masterFd: int
    var workerRx: seq<Byte>
    var workerTx: seq<Byte>
    var workerDied: bool
    var exitStatus: Option<Exit>
    /** The frames ever queued to the worker, and the bytes that its socket has accepted. */
    ghost var framesOut: seq<Frame>
    ghost var bytesOut: seq<Byte>

    /** What was sent and what is still queued are all the frames, in order. */
    ghost predicate Conserved()
      reads this
    {
      AllFit(framesOut) && bytesOut + workerTx == WireAll(framesOut)
    }

    constructor (fd: int)
      ensures hosted && masterFd == fd && workerRx == [] && workerTx == [] && !workerDied && exitStatus == None
      ensures Conserved() && framesOut == [] && bytesOut == []
    {
      hosted, masterFd, workerRx, workerTx, workerDied, exitStatus := true, fd, [], [], false, None;
      framesOut, bytesOut := [], [];
    }

    /** pump_hosted_session: drain the reads, then take every complete frame off the front. */
    method Pump(rs: seq<Read>) returns (output: seq<Byte>, scrollback: seq<Byte>)
      modifies this`workerRx, this`workerDied, this`exitStatus
      ensures !hosted || masterFd < 0 || old(workerDied) ==>
                output == [] && scrollback == [] && workerRx == old(workerRx)
                && workerDied == old(workerDied) && exitStatus == old(exitStatus)
      ensures hosted && masterFd >= 0 && !old(workerDied) ==>
                var next := Call(State(old(workerRx), false, Heard([], [], old(exitStatus), false)), rs);
                State(workerRx, workerDied, Heard(output, scrollback, exitStatus, next.heard.death)) == next
    {
      hide Parse, Received, Ends;
      output, scrollback := [], [];
      if !hosted || masterFd < 0 || workerDied { return; }
      Drain(rs);
      CallIs(State(old(workerRx), false, Heard([], [], exitStatus, false)), rs);
      output, scrollback := TakeFrames();
      if |workerRx| > RUNAWAY {
        workerRx := [];
        workerDied := true;
      }
    }

    /** The read loop. */
    method Drain(rs: seq<Read>)
      requires !workerDied
      modifies this`workerRx, this`workerDied
      ensures workerRx == old(workerRx) + Received(rs) && workerDied == Ends(rs)
    {
      hide Received, Ends;
      ghost var all := workerRx + Received(rs);
      ReceivedStep(rs, 0);
      ReceivedNothing();
      var i := 0;
      while i < |rs|
        invariant i <= |rs| && !workerDied
        invariant workerRx + Received(rs[i..]) == all && Ends(rs[i..]) == Ends(rs)
      {
        ReceivedStep(rs, i);
        match rs[i] {
          case Data(bytes) => workerRx := workerRx + bytes;
          case Interrupted =>
          case WouldBlock => break;
          case Ended => workerDied := true; break;
        }
        i := i + 1;
      }
      if i == |rs| { assert rs[i..] == []; }
    }

    /** The reassembly loop: [type:1][len:4be][payload], as often as a whole frame is there. */
    method TakeFrames() returns (output: seq<Byte>, scrollback: seq<Byte>)
      modifies this`workerRx, this`workerDied, this`exitStatus
      ensures var p := Parse(Heard([], [], old(exitStatus), false), old(workerRx));
              && Heard(output, scrollback, exitStatus, p.heard.death) == p.heard
              && workerRx == p.rest
              && workerDied == (old(workerDied) || p.heard.death || p.desync)
    {
      hide Parse, FrameReady, OutOfStep, FirstFrame, DeclaredLength, Hear;
      output, scrollback := [], [];
      ghost var all := workerRx;
      ghost var start := Heard([], [], exitStatus, false);
      ghost var death, desync := false, false;
      var off := 0;
      assert all[0..] == all;
      while |workerRx| - off >= 5
        invariant off <= |workerRx| && workerRx == all
        invariant Parse(Heard(output, scrollback, exitStatus, death), all[off..]) == Parse(start, all)
        invariant workerDied == (old(workerDied) || death) && !desync
        decreases |workerRx| - off
      {
        ghost var h := Heard(output, scrollback, exitStatus, death);
        var kind, len := workerRx[off], ReadU32(workerRx[off + 1..off + 5]);
        HeaderAt(all, off);
        ParseStep(h, all, off);
        if len > MAX_FRAME {
          workerDied, desync := true, true;
          break;
        }
        if |workerRx| - off < 5 + len { break; }
        var payload := workerRx[off + 5..off + 5 + len];
        HearStep(h, Frame(kind, payload));
        if kind == WMSG_OUTPUT {
          output := output + payload;
        } else if kind == WMSG_SCROLLBACK {
          scrollback := scrollback + payload;
        } else if kind == WMSG_DIED {
          if len >= 8 {
            exitStatus := Some(Exit(ToInt32(ReadU32(payload)), ToInt32(ReadU32(payload[4..]))));
          }
          workerDied := true;
          death := true;
        }
        off := off + 5 + len;
      }
      TooShort(all[off..]);
      ParseStops(Heard(output, scrollback, exitStatus, death), all, off);
      if off > 0 { workerRx := workerRx[off..]; }
    }

    /** worker_queue_frame: append the frame, then write until the socket takes no more. */
    method QueueFrame(f: Frame, writes: seq<Write>)
      requires Conserved()
      modifies this`workerTx, this`framesOut, this`bytesOut
      ensures Conserved()
      ensures framesOut == old(framesOut) + if f.Fits() && masterFd >= 0 then [f] else []
      ensures if f.Fits() && masterFd >= 0 then
                var all := old(workerTx) + Wire(f);
                var k := Flushed(writes, |all|).0;
                bytesOut == old(bytesOut) + all[..k] && workerTx == all[k..]
              else bytesOut == old(bytesOut) && workerTx == old(workerTx)
    {
      hide Wire, Be32, WireAll;
      if |f.payload| > MAX_FRAME || masterFd < 0 { return; }
      WireIs(f);
      WireAllAppend(framesOut, f);
      JoinThree(bytesOut, workerTx, Wire(f));
      workerTx := workerTx + ([f.kind] + Be32(|f.payload|));
      workerTx := workerTx + f.payload;
      assert workerTx == old(workerTx) + Wire(f);
      framesOut := framesOut + [f];
      WriteOut(writes);
    }

    /** The flush loop, here and when the socket is writable again. */
    method WriteOut(writes: seq<Write>)
      requires Conserved()
      modifies this`workerTx, this`bytesOut
      ensures Conserved()
      ensures var k := Flushed(writes, |old(workerTx)|).0;
              bytesOut == old(bytesOut) + old(workerTx)[..k] && workerTx == old(workerTx)[k..]
    {
      hide WireAll, AllFit, Flushed;
      ghost var n, done := |workerTx|, 0;
      var i := 0;
      assert writes[0..] == writes;
      while |workerTx| > 0 && i < |writes|
        invariant Conserved() && i <= |writes| && done <= n
        invariant bytesOut == old(bytesOut) + old(workerTx)[..done] && workerTx == old(workerTx)[done..]
        invariant Flushed(writes, n).0 == done + Flushed(writes[i..], |workerTx|).0
        decreases |writes| - i
      {
        FlushedStep(writes, i, |workerTx|);
        match writes[i] {
          case Accepted(m) =>
            var k := Taken(m, |workerTx|);
            MovePrefix(bytesOut, workerTx, k);
            assert old(workerTx)[..done] + workerTx[..k] == old(workerTx)[..done + k];
            bytesOut := bytesOut + workerTx[..k];
            workerTx := workerTx[k..];
            done := done + k;
          case WriteInterrupted =>
          case WriteWouldBlock => return;
          case WriteFailed => return;
        }
        i := i + 1;
      }
      FlushedNothing(writes[i..], |workerTx|);
    }
  }

  /** Of n bytes, how many a run of writes gets out, and that no write failed for good. An interrupted write
      is tried again; one that would block ends the attempt. */
  function Flushed(writes: seq<Write>, n: nat): (r: (nat, bool))
    ensures r.0 <= n
    decreases |writes|
  {
    if n == 0 || writes == [] then (0, true)
    else
      match writes[0]
      case Accepted(m) =>
        var rest := Flushed(writes[1..], n - Taken(m, n));
        (Taken(m, n) + rest.0, rest.1)
      case WriteInterrupted => Flushed(writes[1..], n)
      case WriteWouldBlock => (0, true)
      case WriteFailed => (0, false)
  }

  /** With enough writes accepted, and others only interrupted, everything gets out. */
  lemma {:induction false} FlushesAll(writes: seq<Write>, n: nat)
    requires forall w :: w in writes ==> w.Accepted? || w.WriteInterrupted?
    requires Acceptances(writes) >= n
    ensures Flushed(writes, n) == (n, true)
    decreases |writes|
  {
    if n > 0 {
      assert writes[0] in writes;
      assert forall w :: w in writes[1..] ==> w in writes;
      FlushesAll(writes[1..], if writes[0].Accepted? then n - Taken(writes[0].n, n) else n);
    }
  }

  function Acceptances(writes: seq<Write>): nat {
    if writes == [] then 0 else (if writes[0].Accepted? then 1 else 0) + Acceptances(writes[1..])
  }

  /** What stops an attempt leaves what was sent before as it is, and nothing after it matters. */
  lemma {:induction false} FlushStops(before: seq<Write>, after: seq<Write>, n: nat)
    requires Flushed(before, n).1 && forall w :: w in before ==> !w.WriteWouldBlock?
    ensures Flushed(before + [WriteWouldBlock] + after, n) == Flushed(before, n)
    ensures Flushed(before + [WriteFailed] + after, n) == (Flushed(before, n).0, Flushed(before, n).0 == n)
    decreases |before|
  {
    if before == [] {
      assert [] + [WriteWouldBlock] + after == [WriteWouldBlock] + after && [] + [WriteFailed] + after == [WriteFailed] + after;
    } else if n > 0 {
      assert before[0] in before;
      assert forall w :: w in before[1..] ==> w in before;
      assert (before + [WriteWouldBlock] + after)[1..] == before[1..] + [WriteWouldBlock] + after;
      assert (before + [WriteFailed] + after)[1..] == before[1..] + [WriteFailed] + after;
      FlushStops(before[1..], after, if before[0].Accepted? then n - Taken(before[0].n, n) else n);
    }
  }

  lemma FlushedStep(writes: seq<Write>, i: nat, n: nat)
    requires i < |writes| && n > 0
    ensures Flushed(writes[i..], n)
         == match writes[i]
            case Accepted(m) =>
              var rest := Flushed(writes[i + 1..], n - Taken(m, n));
              (Taken(m, n) + rest.0, rest.1)
            case WriteInterrupted => Flushed(writes[i + 1..], n)
            case WriteWouldBlock => (0, true)
            case WriteFailed => (0, false)
  {
  }

  lemma FlushedNothing(writes: seq<Write>, n: nat)
    requires writes == [] || n == 0
    ensures Flushed(writes, n) == (0, true)
  {
  }

  /** How much of what was offered a write took: at least one byte, at most all. */
  function Taken(n: nat, offered: nat): (k: nat)
    requires offered > 0
    ensures 0 < k <= offered
  {
    if n == 0 then 1 else if n > offered then offered else n
  }

  /** kClientTxCap, and the consumed prefix at which a queue is compacted. */
  const CLIENT_TX_CAP := 4 * 1024 * 1024
  const COMPACT_AT := 64 * 1024

  /** What was sent and what is pending are all the frames, in order, and the backlog is bounded. */
  ghost predicate Backed(frames: seq<Frame>, sent: seq<Byte>, pending: seq<Byte>) {
    |pending| <= 4194304 && AllFit(frames) && sent + pending == WireAll(frames)
  }

  /** Of the same bytes in all, those sent and those pending follow from how many are pending. */
  lemma SplitAt(frames: seq<Frame>, sent: seq<Byte>, pending: seq<Byte>, more: seq<Byte>, rest: seq<Byte>, k: nat)
    requires Backed(frames, sent, pending) && more + rest == sent + pending && k + |rest| == |pending|
    ensures more == sent + pending[..k] && rest == pending[k..]
    ensures Backed(frames, more, rest)
  {
    var all := sent + pending;
    assert more == all[..|more|] && rest == all[|more|..];
  }

  /** The worker's side of one connection. */
  class WorkerClient {
    var fd: int
    var tx: seq<Byte>
    var txOff: nat
    /** The frames queued to this client, and the bytes that its socket has accepted. */
    ghost var frames: seq<Frame>
    ghost var sent: seq<Byte>

    ghost predicate Valid()
      reads this
    {
      txOff <= |tx| && Backed(frames, sent, tx[txOff..])
    }

    constructor (fd: int)
      ensures Valid() && this.fd == fd && frames == [] && sent == []
    {
      this.fd, tx, txOff, frames, sent := fd, [], 0, [], [];
    }

    /** queue_to_client: refused when the backlog would pass 4 MiB; the caller then drops the client. */
    method QueueToClient(f: Frame) returns (ok: bool)
      requires Valid()
      modifies this`tx, this`frames
      ensures Valid()
      ensures ok <==> fd >= 0 && |old(tx)| - txOff + 5 + |f.payload| <= 4194304
      ensures frames == old(frames) + if ok then [f] else []
      ensures !ok ==> tx == old(tx)
    {
      hide Wire, Be32, WireAll;
      if fd < 0 { return false; }
      if |tx| - txOff + 5 + |f.payload| > CLIENT_TX_CAP { return false; }
      WireIs(f);
      WireAllAppend(frames, f);
      JoinThree(sent, tx[txOff..], Wire(f));
      tx := tx + ([f.kind] + Be32(|f.payload|));
      tx := tx + f.payload;
      assert tx[txOff..] == old(tx)[txOff..] + Wire(f);
      frames := frames + [f];
      return true;
    }

    /** flush_client: false only on a hard error. */
    method FlushClient(writes: seq<Write>) returns (ok: bool)
      requires Valid()
      modifies this`tx, this`txOff, this`sent
      ensures Valid()
      ensures var pending := old(tx)[old(txOff)..];
              var r := Flushed(writes, |pending|);
              sent == old(sent) + pending[..r.0] && tx[txOff..] == pending[r.0..] && ok == r.1
      ensures ok ==> txOff < 65536
    {
      hide Backed, Flushed;
      ghost var pending, done, was := tx[txOff..], 0, sent;
      var i := 0;
      assert writes[0..] == writes;
      while txOff < |tx| && i < |writes|
        invariant i <= |writes| && tx == old(tx) && txOff == old(txOff) + done <= |tx|
        invariant sent + tx[txOff..] == was + pending
        invariant Flushed(writes, |pending|)
               == (done + Flushed(writes[i..], |tx| - txOff).0, Flushed(writes[i..], |tx| - txOff).1)
        decreases |writes| - i
      {
        FlushedStep(writes, i, |tx| - txOff);
        match writes[i] {
          case Accepted(m) =>
            var k := Taken(m, |tx| - txOff);
            MoveOffset(sent, tx, txOff, k);
            sent := sent + tx[txOff..txOff + k];
            txOff := txOff + k;
            done := done + k;
          case WriteInterrupted =>
          case WriteWouldBlock => break;
          case WriteFailed =>
            SplitAt(frames, was, pending, sent, tx[txOff..], done);
            return false;
        }
        i := i + 1;
      }
      if txOff == |tx| || i == |writes| { FlushedNothing(writes[i..], |tx| - txOff); }
      SplitAt(frames, was, pending, sent, tx[txOff..], done);
      Compact();
      return true;
    }

    /** The consumed prefix goes when all is sent or it has grown to 64 KiB. */
    method Compact()
      requires txOff <= |tx|
      modifies this`tx, this`txOff
      ensures txOff <= |tx| && tx[txOff..] == old(tx[txOff..]) && txOff < 65536
    {
      if txOff == |tx| {
        assert tx[txOff..] == [];
        tx := [];
        txOff := 0;
      } else if txOff >= COMPACT_AT {
        tx := tx[txOff..];
        txOff := 0;
      }
    }
  }

  lemma MoveOffset(sent: seq<Byte>, tx: seq<Byte>, off: nat, k: nat)
    requires off + k <= |tx|
    ensures sent + tx[off..off + k] + tx[off + k..] == sent + tx[off..]
  {
    assert tx[off..] == tx[off..off + k] + tx[off + k..];
  }

  lemma JoinThree(a: seq<Byte>, b: seq<Byte>, c: seq<Byte>)
    ensures (a + b) + c == a + (b + c)
  {
  }

  lemma WireIs(f: Frame)
    requires f.Fits()
    ensures Wire(f) == [f.kind] + Be32(|f.payload|) + f.payload
  {
  }

  lemma MovePrefix(a: seq<Byte>, b: seq<Byte>, k: nat)
    requires k <= |b|
    ensures (a + b[..k]) + b[k..] == a + b
  {
    assert b == b[..k] + b[k..];
  }

  lemma ReceivedNothing()
    ensures Received([]) == [] && !Ends([])
  {
  }

  lemma ReceivedStep(rs: seq<Read>, i: nat)
    requires i <= |rs|
    ensures i == 0 ==> rs[i..] == rs
    ensures i < |rs| ==>
              && Received(rs[i..]) == (match rs[i]
                                          case Data(bytes) => bytes + Received(rs[i + 1..])
                                          case Interrupted => Received(rs[i + 1..])
                                          case _ => [])
              && Ends(rs[i..]) == (rs[i].Ended? || (!rs[i].WouldBlock? && Ends(rs[i + 1..])))
  {
    if i < |rs| {
      assert rs[i..][0] == rs[i] && rs[i..][1..] == rs[i + 1..];
    }
  }

  lemma HeaderAt(all: seq<Byte>, off: nat)
    requires off + 5 <= |all|
    ensures all[off..][0] == all[off] && DeclaredLength(all[off..]) == ReadU32(all[off + 1..off + 5])
    ensures 0 <= ReadU32(all[off + 1..off + 5])
  {
    assert all[off..][1..5] == all[off + 1..off + 5];
  }

  /** One turn of the parse loop at offset off. */
  lemma ParseStep(h: Heard, all: seq<Byte>, off: nat)
    requires off + 5 <= |all|
    ensures var len := DeclaredLength(all[off..]);
            && len >= 0
            && (len > 16777216 ==> !FrameReady(all[off..]) && OutOfStep(all[off..]))
            && (len <= 16777216 && |all| - off < 5 + len ==> !FrameReady(all[off..]) && !OutOfStep(all[off..]))
            && (len <= 16777216 && |all| - off >= 5 + len ==>
                  Parse(h, all[off..]) == Parse(Hear(h, Frame(all[off], all[off + 5..off + 5 + len])), all[off + 5 + len..]))
  {
    hide Hear;
    var b, len := all[off..], DeclaredLength(all[off..]);
    DeclaredLengthIsNat(b);
    if len <= 16777216 && |all| - off >= 5 + len {
      assert b[5..5 + len] == all[off + 5..off + 5 + len];
      assert b[5 + len..] == all[off + 5 + len..];
    }
  }

  lemma CallIs(s: State, rs: seq<Read>)
    ensures !s.died ==>
              var p := Parse(s.heard, s.rx + Received(rs));
              var over := |p.rest| > 33554432;
              Call(s, rs) == State(if over then [] else p.rest, Ends(rs) || p.heard.death || p.desync || over, p.heard)
  {
  }

  lemma TooShort(b: seq<Byte>)
    ensures |b| < 5 ==> !FrameReady(b) && !OutOfStep(b)
  {
  }

  lemma ParseStops(h: Heard, all: seq<Byte>, off: nat)
    requires off <= |all| && !FrameReady(all[off..])
    ensures Parse(h, all[off..]) == Parsed(h, all[off..], OutOfStep(all[off..]))
  {
  }

  lemma HearStep(h: Heard, f: Frame)
    ensures Hear(h, f)
         == if f.kind == WMSG_OUTPUT then h.(output := h.output + f.payload)
            else if f.kind == WMSG_SCROLLBACK then h.(scrollback := h.scrollback + f.payload)
            else if f.kind == WMSG_DIED then
              h.(death := true,
                 exit := if |f.payload| >= 8 then Some(Exit(ToInt32(ReadU32(f.payload)), ToInt32(ReadU32(f.payload[4..]))))
                         else h.exit)
            else h
  {
  }

  // ── Whole runs of calls ───────────────────────────────────────────────────────

  /** A session over many calls, with everything it has handed out so far. */
  datatype State = State(rx: seq<Byte>, died: bool, heard: Heard)

  const Fresh := State([], false, Silence)

  function Call(s: State, rs: seq<Read>): State {
    if s.died then s
    else
      var p := Parse(s.heard, s.rx + Received(rs));
      var over := |p.rest| > 33554432;
      State(if over then [] else p.rest, Ends(rs) || p.heard.death || p.desync || over, p.heard)
  }

  function Calls(s: State, calls: seq<seq<Read>>): State
    decreases |calls|
  {
    if calls == [] then s else Calls(Call(s, calls[0]), calls[1..])
  }

  /** The bytes the run takes in: those of every call up to the one that ends it. */
  function Consumed(s: State, calls: seq<seq<Read>>): seq<Byte>
    decreases |calls|
  {
    if calls == [] || s.died then [] else Received(calls[0]) + Consumed(Call(s, calls[0]), calls[1..])
  }

  /** What one call adds does not depend on what earlier calls handed out: the outputs of the
      single calls, joined, are those of the run. */
  lemma CallAccumulates(s: State, rs: seq<Read>)
    requires !s.died && !s.heard.death
    ensures var one := Call(State(s.rx, false, Heard([], [], s.heard.exit, false)), rs);
            Call(s, rs) == one.(heard := Joined(s.heard.output, s.heard.scrollback, one.heard))
  {
    hide Parse, Received, Ends;
    var g := Heard([], [], s.heard.exit, false);
    assert Joined(s.heard.output, s.heard.scrollback, g) == s.heard;
    ParseAccumulates(s.heard.output, s.heard.scrollback, g, s.rx + Received(rs));
  }

  function Joined(output: seq<Byte>, scrollback: seq<Byte>, h: Heard): Heard {
    h.(output := output + h.output, scrollback := scrollback + h.scrollback)
  }

  lemma {:induction false} ParseAccumulates(output: seq<Byte>, scrollback: seq<Byte>, h: Heard, b: seq<Byte>)
    ensures var p := Parse(h, b);
            Parse(Joined(output, scrollback, h), b) == p.(heard := Joined(output, scrollback, p.heard))
    decreases |b|
  {
    hide FirstFrame, Joined;
    if FrameReady(b) {
      DeclaredLengthIsNat(b);
      HearJoined(output, scrollback, h, FirstFrame(b));
      ParseAccumulates(output, scrollback, Hear(h, FirstFrame(b)), b[5 + DeclaredLength(b)..]);
    }
  }

  lemma HearJoined(output: seq<Byte>, scrollback: seq<Byte>, h: Heard, f: Frame)
    ensures Hear(Joined(output, scrollback, h), f) == Joined(output, scrollback, Hear(h, f))
  {
    assert output + h.output + f.payload == output + (h.output + f.payload);
    assert scrollback + h.scrollback + f.payload == scrollback + (h.scrollback + f.payload);
  }

  // ── Cutting the stream ────────────────────────────────────────────────────────

  lemma {:induction false} ParseRest(h: Heard, b: seq<Byte>)
    ensures var p := Parse(h, b);
            && !FrameReady(p.rest) && p.desync == OutOfStep(p.rest) && |p.rest| <= |b|
            && (!p.desync ==> |p.rest| < 5 + 16777216)
    decreases |b|
  {
    hide Hear, FirstFrame;
    if FrameReady(b) {
      DeclaredLengthIsNat(b);
      ParseRest(Hear(h, FirstFrame(b)), b[5 + DeclaredLength(b)..]);
    }
  }

  lemma FirstFrameStays(a: seq<Byte>, b: seq<Byte>)
    requires FrameReady(a)
    ensures FrameReady(a + b) && FirstFrame(a + b) == FirstFrame(a) && DeclaredLength(a + b) == DeclaredLength(a)
    ensures 0 <= DeclaredLength(a) && (a + b)[5 + DeclaredLength(a)..] == a[5 + DeclaredLength(a)..] + b
  {
    DeclaredLengthIsNat(a);
    assert (a + b)[1..5] == a[1..5];
    assert (a + b)[5..5 + DeclaredLength(a)] == a[5..5 + DeclaredLength(a)];
  }

  /** Parsing may stop after any prefix and go on later with what was left. */
  lemma {:induction false} ParseSplit(h: Heard, a: seq<Byte>, b: seq<Byte>)
    ensures var p := Parse(h, a);
            Parse(h, a + b) == Parse(p.heard, p.rest + b)
    decreases |a|
  {
    hide Hear, FirstFrame, FrameReady, DeclaredLength;
    if FrameReady(a) {
      FirstFrameStays(a, b);
      ReadyIsLong(a);
      ParseSplit(Hear(h, FirstFrame(a)), a[5 + DeclaredLength(a)..], b);
      ParseFirst(h, a);
      ParseFirst(h, a + b);
    } else {
      ParseNone(h, a);
    }
  }

  lemma ReadyIsLong(a: seq<Byte>)
    requires FrameReady(a)
    ensures 0 <= DeclaredLength(a) && |a| >= 5 + DeclaredLength(a)
  {
    DeclaredLengthIsNat(a);
  }

  lemma ParseFirst(h: Heard, b: seq<Byte>)
    requires FrameReady(b)
    ensures |b| >= 5 && 0 <= DeclaredLength(b) <= |b| - 5
    ensures Parse(h, b) == Parse(Hear(h, FirstFrame(b)), b[5 + DeclaredLength(b)..])
  {
    hide Hear, FirstFrame;
    DeclaredLengthIsNat(b);
  }

  lemma ParseNone(h: Heard, b: seq<Byte>)
    requires !FrameReady(b)
    ensures Parse(h, b) == Parsed(h, b, OutOfStep(b))
  {
  }

  lemma {:induction false} DiedStays(s: State, calls: seq<seq<Read>>)
    requires s.died
    ensures Calls(s, calls) == s
    decreases |calls|
  {
    if calls != [] { DiedStays(s, calls[1..]); }
  }

  /** A run of calls is one parse of the bytes it took in, however they were cut, garbage included. */
  lemma {:induction false} RunIsOneParse(s: State, calls: seq<seq<Read>>)
    requires !s.died && !FrameReady(s.rx) && |s.rx| <= 33554432
    ensures var p := Parse(s.heard, s.rx + Consumed(s, calls));
            var t := Calls(s, calls);
            t.heard == p.heard && t.rx == if |p.rest| > 33554432 then [] else p.rest
    decreases |calls|
  {
    hide Parse, Received, Ends, FrameReady;
    if calls == [] {
      assert s.rx + [] == s.rx;
      ParseNone(s.heard, s.rx);
    } else {
      var c, s' := calls[0], Call(s, calls[0]);
      var bytes := s.rx + Received(c);
      CallIs(s, c);
      ParseRest(s.heard, bytes);
      if s'.died {
        DiedStays(s', calls[1..]);
        assert Consumed(s', calls[1..]) == [];
        assert s.rx + (Received(c) + []) == bytes;
      } else {
        RunIsOneParse(s', calls[1..]);
        ParseSplit(s.heard, bytes, Consumed(s', calls[1..]));
        assert s.rx + (Received(c) + Consumed(s', calls[1..])) == bytes + Consumed(s', calls[1..]);
      }
    }
  }

  // ── Streams of frames ─────────────────────────────────────────────────────────

  lemma WireParses(f: Frame, rest: seq<Byte>)
    requires f.Fits()
    ensures var b := Wire(f) + rest;
            FrameReady(b) && FirstFrame(b) == f && DeclaredLength(b) == |f.payload| && b[|Wire(f)|..] == rest
  {
    var b, n := Wire(f) + rest, |f.payload|;
    Be32RoundTrip(n, []);
    assert b[1..5] == Be32(n) + [];
    assert b[5..5 + n] == f.payload;
  }

  lemma {:induction false} FramesParse(h: Heard, fs: seq<Frame>, rest: seq<Byte>)
    requires AllFit(fs) && !FrameReady(rest)
    ensures Parse(h, WireAll(fs) + rest) == Parsed(HearAll(h, fs), rest, OutOfStep(rest))
    decreases |fs|
  {
    hide Parse, Hear, FrameReady, FirstFrame, DeclaredLength, OutOfStep, Wire;
    if fs == [] {
      assert WireAll(fs) + rest == rest;
      ParseNone(h, rest);
    } else {
      var tail := WireAll(fs[1..]) + rest;
      assert WireAll(fs) + rest == Wire(fs[0]) + tail;
      WireParses(fs[0], tail);
      ParseFirst(h, Wire(fs[0]) + tail);
      FramesParse(Hear(h, fs[0]), fs[1..], rest);
    }
  }

  /** How many frames the first n bytes of their stream complete. */
  function Complete(fs: seq<Frame>, n: nat): (k: nat)
    requires AllFit(fs)
    ensures k <= |fs|
  {
    if fs == [] || n < |Wire(fs[0])| then 0 else 1 + Complete(fs[1..], n - |Wire(fs[0])|)
  }

  /** b is the first k frames and one piece that does not parse. */
  ghost predicate CutAt(fs: seq<Frame>, b: seq<Byte>, k: nat)
    requires AllFit(fs) && k <= |fs|
  {
    && AllFit(fs[..k]) && |WireAll(fs[..k])| <= |b|
    && b == WireAll(fs[..k]) + b[|WireAll(fs[..k])|..]
    && !FrameReady(b[|WireAll(fs[..k])|..]) && !OutOfStep(b[|WireAll(fs[..k])|..])
  }

  lemma CutNothing(fs: seq<Frame>, b: seq<Byte>)
    requires AllFit(fs) && !FrameReady(b) && !OutOfStep(b)
    ensures CutAt(fs, b, 0)
  {
    hide Wire, FrameReady, OutOfStep;
    assert fs[..0] == [] && [] + b[0..] == b && b[0..] == b;
  }

  lemma CutOneMore(fs: seq<Frame>, b: seq<Byte>, rest: seq<Byte>, k: nat)
    requires fs != [] && AllFit(fs) && b == Wire(fs[0]) + rest && k <= |fs[1..]| && CutAt(fs[1..], rest, k)
    ensures CutAt(fs, b, k + 1)
  {
    hide Wire, FrameReady, OutOfStep;
    var w := Wire(fs[0]);
    assert fs[..k + 1][0] == fs[0] && fs[..k + 1][1..] == fs[1..][..k];
    assert WireAll(fs[..k + 1]) == w + WireAll(fs[1..][..k]);
    var n := |WireAll(fs[1..][..k])|;
    assert b[|w| + n..] == rest[n..];
    assert w + (WireAll(fs[1..][..k]) + rest[n..]) == w + WireAll(fs[1..][..k]) + rest[n..];
  }

  /** A cut stream is whole frames and one piece that does not parse. */
  lemma {:induction false} CutStream(fs: seq<Frame>, b: seq<Byte>)
    requires AllFit(fs) && b <= WireAll(fs)
    ensures var k := Complete(fs, |b|);
            && AllFit(fs[..k]) && |WireAll(fs[..k])| <= |b|
            && b == WireAll(fs[..k]) + b[|WireAll(fs[..k])|..]
            && !FrameReady(b[|WireAll(fs[..k])|..]) && !OutOfStep(b[|WireAll(fs[..k])|..])
  {
    CutStreamAt(fs, b);
  }

  lemma {:induction false} CutStreamAt(fs: seq<Frame>, b: seq<Byte>)
    requires AllFit(fs) && b <= WireAll(fs)
    ensures CutAt(fs, b, Complete(fs, |b|))
  {
    hide CutAt;
    if fs == [] {
      assert b == [];
      CutNothing(fs, b);
    } else {
      var w := Wire(fs[0]);
      if |b| < |w| {
        assert b == w[..|b|];
        PieceDoesNotParse(fs[0], |b|);
        CutNothing(fs, b);
      } else {
        hide Wire, FrameReady, OutOfStep;
        assert b[..|w|] == WireAll(fs)[..|w|] == w;
        var rest := b[|w|..];
        assert rest == WireAll(fs)[|w|..][..|rest|] && WireAll(fs)[|w|..] == WireAll(fs[1..]);
        CutStreamAt(fs[1..], rest);
        assert b == w + rest;
        CutOneMore(fs, b, rest, Complete(fs[1..], |rest|));
      }
    }
  }

  lemma PieceDoesNotParse(f: Frame, n: nat)
    requires f.Fits() && n < |Wire(f)|
    ensures !FrameReady(Wire(f)[..n]) && !OutOfStep(Wire(f)[..n])
  {
    if n >= 5 {
      Be32RoundTrip(|f.payload|, []);
      assert Wire(f)[..n][1..5] == Be32(|f.payload|) + [];
    }
  }

  /** The reassembler, over any cutting of a frame stream into reads and calls: it has handed out
      exactly the payloads of the frames completed by the bytes it took in (those read before an end
      of file too), and what it keeps is the started frame, far below the runaway guard. */
  lemma DeliversCompleteFrames(fs: seq<Frame>, calls: seq<seq<Read>>)
    requires AllFit(fs) && Consumed(Fresh, calls) <= WireAll(fs)
    ensures var b, t := Consumed(Fresh, calls), Calls(Fresh, calls);
            var k := Complete(fs, |b|);
            && AllFit(fs[..k]) && t.heard == HearAll(Silence, fs[..k])
            && |WireAll(fs[..k])| <= |b| && t.rx == b[|WireAll(fs[..k])|..]
            && |t.rx| < 5 + 16777216
  {
    hide Parse;
    var b := Consumed(Fresh, calls);
    var k := Complete(fs, |b|);
    CutStream(fs, b);
    var rest := b[|WireAll(fs[..k])|..];
    FramesParse(Silence, fs[..k], rest);
    ParseRest(Silence, b);
    RunIsOneParse(Fresh, calls);
    assert [] + b == b;
  }

  // ── The death of the worker ───────────────────────────────────────────────────

  /** Everything the calls were given, taken in or not. */
  function Offered(calls: seq<seq<Read>>): seq<Byte> {
    if calls == [] then [] else Received(calls[0]) + Offered(calls[1..])
  }

  predicate NoneEnds(calls: seq<seq<Read>>) {
    forall i :: 0 <= i < |calls| ==> !Ends(calls[i])
  }

  lemma {:induction false} HeardDeath(h: Heard, fs: seq<Frame>)
    ensures HearAll(h, fs).death <==> h.death || exists i :: 0 <= i < |fs| && fs[i].IsDeath()
    decreases |fs|
  {
    if fs != [] {
      HeardDeath(Hear(h, fs[0]), fs[1..]);
      if i :| 0 <= i < |fs| && fs[i].IsDeath() {
        if i > 0 { assert fs[1..][i - 1] == fs[i]; }
      }
    }
  }

  lemma {:induction false} ConsumedOffered(s: State, calls: seq<seq<Read>>)
    ensures Consumed(s, calls) <= Offered(calls)
    ensures !Calls(s, calls).died ==> Consumed(s, calls) == Offered(calls)
    decreases |calls|
  {
    hide Received, Call;
    if s.died {
      DiedStays(s, calls);
    } else if calls != [] {
      var c := Consumed(Call(s, calls[0]), calls[1..]);
      ConsumedOffered(Call(s, calls[0]), calls[1..]);
      assert (Received(calls[0]) + c)[|Received(calls[0])|..] == c;
      assert Offered(calls)[|Received(calls[0])|..] == Offered(calls[1..]);
    }
  }

  /** Without an end of file, a run ends only on a death, a bad length or the runaway guard. */
  lemma {:induction false} WhyDied(s: State, calls: seq<seq<Read>>)
    requires !s.died && NoneEnds(calls) && !FrameReady(s.rx) && !OutOfStep(s.rx) && !s.heard.death
    ensures var t := Calls(s, calls);
            t.died ==> t.heard.death || Parse(s.heard, s.rx + Consumed(s, calls)).desync
    decreases |calls|
  {
    hide Parse, Received, Ends, FrameReady, OutOfStep;
    if calls != [] {
      var c, s' := calls[0], Call(s, calls[0]);
      var bytes := s.rx + Received(c);
      CallIs(s, c);
      ParseRest(s.heard, bytes);
      if s'.died {
        DiedStays(s', calls[1..]);
        assert Consumed(s', calls[1..]) == [];
        assert s.rx + (Received(c) + []) == bytes;
      } else {
        WhyDied(s', calls[1..]);
        ParseSplit(s.heard, bytes, Consumed(s', calls[1..]));
        assert s.rx + (Received(c) + Consumed(s', calls[1..])) == bytes + Consumed(s', calls[1..]);
      }
    }
  }

  lemma {:induction false} CompleteCovers(fs: seq<Frame>, d: nat, n: nat)
    requires AllFit(fs) && d <= |fs|
    ensures AllFit(fs[..d])
    ensures n >= |WireAll(fs[..d])| ==> Complete(fs, n) >= d
  {
    hide Wire;
    if d > 0 {
      assert fs[..d][0] == fs[0] && fs[..d][1..] == fs[1..][..d - 1];
      CompleteCovers(fs[1..], d - 1, if n >= |Wire(fs[0])| then n - |Wire(fs[0])| else 0);
    }
  }

  /** The first death is never lost: once the calls were given its bytes (and no end of file cut
      them short) it has been heard, whatever the cutting, and everything before it with it. */
  lemma DeathIsHeard(fs: seq<Frame>, calls: seq<seq<Read>>, d: nat)
    requires AllFit(fs) && d < |fs| && fs[d].IsDeath() && (forall i :: 0 <= i < d ==> !fs[i].IsDeath())
    requires NoneEnds(calls) && Offered(calls) <= WireAll(fs)
    requires AllFit(fs[..d + 1]) && |Offered(calls)| >= |WireAll(fs[..d + 1])|
    ensures var k := Complete(fs, |Consumed(Fresh, calls)|);
            var t := Calls(Fresh, calls);
            AllFit(fs[..k]) && d < k && t.died && t.heard == HearAll(Silence, fs[..k])
  {
    hide Parse, WireAll, Complete, Ends;
    ConsumedOffered(Fresh, calls);
    DeliversCompleteFrames(fs, calls);
    var b, t := Consumed(Fresh, calls), Calls(Fresh, calls);
    var k := Complete(fs, |b|);
    CutStream(fs, b);
    CompleteCovers(fs, d + 1, |b|);
    HeardDeath(Silence, fs[..k]);
    FramesParse(Silence, fs[..k], t.rx);
    WhyDied(Fresh, calls);
    assert [] + b == b;
    if !t.died {
      assert fs[..k][d] == fs[d];
      NotDiedNotDead(Fresh, calls);
      assert false;
    }
    var i :| 0 <= i < k && fs[..k][i].IsDeath();
  }

  lemma {:induction false} NotDiedNotDead(s: State, calls: seq<seq<Read>>)
    requires !s.heard.death
    ensures !Calls(s, calls).died ==> !Calls(s, calls).heard.death
    decreases |calls|
  {
    hide Parse, Received, Ends;
    if calls != [] {
      CallIs(s, calls[0]);
      if Call(s, calls[0]).heard.death {
        DiedStays(Call(s, calls[0]), calls[1..]);
      } else {
        NotDiedNotDead(Call(s, calls[0]), calls[1..]);
      }
    }
  }

  lemma EndsInDeath(fs: seq<Frame>, calls: seq<seq<Read>>)
    requires AllFit(fs) && NoneEnds(calls) && Offered(calls) == WireAll(fs)
    requires fs != [] && fs[|fs| - 1].IsDeath() && forall i :: 0 <= i < |fs| - 1 ==> !fs[i].IsDeath()
    ensures Calls(Fresh, calls).heard == HearAll(Silence, fs)
  {
    hide Parse, WireAll, Complete, Ends, Calls, HearAll, Offered, NoneEnds;
    var n := |fs|;
    assert fs[..n] == fs;
    DeathIsHeard(fs, calls, n - 1);
    assert fs[..Complete(fs, |Consumed(Fresh, calls)|)] == fs;
  }

  /** The bytes of frames without a death, cut anywhere, parse without a death and in step. */
  lemma NoDeathParses(fs: seq<Frame>, b: seq<Byte>)
    requires AllFit(fs) && b <= WireAll(fs) && forall i :: 0 <= i < |fs| ==> !fs[i].IsDeath()
    ensures !Parse(Silence, b).heard.death && !Parse(Silence, b).desync
  {
    hide Parse, WireAll, Complete, HearAll, Frame.IsDeath;
    var k := Complete(fs, |b|);
    CutStream(fs, b);
    HeardDeath(Silence, fs[..k]);
    FramesParse(Silence, fs[..k], b[|WireAll(fs[..k])|..]);
  }

  /** Frames without a death do not end the session. */
  lemma NoDeathLives(fs: seq<Frame>, calls: seq<seq<Read>>)
    requires AllFit(fs) && NoneEnds(calls) && Offered(calls) == WireAll(fs)
    requires forall i :: 0 <= i < |fs| ==> !fs[i].IsDeath()
    ensures !Calls(Fresh, calls).died
  {
    hide Parse, WireAll, Calls, Offered, Consumed, NoneEnds;
    ConsumedOffered(Fresh, calls);
    NoDeathParses(fs, Consumed(Fresh, calls));
    FreshDies(calls);
  }

  /** What ends a session from its start when no read does. */
  lemma FreshDies(calls: seq<seq<Read>>)
    requires NoneEnds(calls)
    ensures var p := Parse(Silence, Consumed(Fresh, calls));
            Calls(Fresh, calls).died ==> p.heard.death || p.desync
  {
    hide Parse, Calls, Consumed, NoneEnds, FrameReady, OutOfStep;
    TooShort([]);
    RunIsOneParse(Fresh, calls);
    WhyDied(Fresh, calls);
    assert [] + Consumed(Fresh, calls) == Consumed(Fresh, calls);
  }

  lemma NoDeathIsHeard(fs: seq<Frame>, calls: seq<seq<Read>>)
    requires AllFit(fs) && NoneEnds(calls) && Offered(calls) == WireAll(fs)
    requires forall i :: 0 <= i < |fs| ==> !fs[i].IsDeath()
    ensures Calls(Fresh, calls).heard == HearAll(Silence, fs)
  {
    hide Parse, WireAll, Complete, Ends, Calls, Offered, NoneEnds, HearAll, Frame.IsDeath;
    NoDeathLives(fs, calls);
    ConsumedOffered(Fresh, calls);
    DeliversCompleteFrames(fs, calls);
    assert fs[..|fs|] == fs;
    CompleteCovers(fs, |fs|, |Consumed(Fresh, calls)|);
  }

  /** So a stream in which nothing follows a death is heard alike under every cutting. */
  lemma CuttingDoesNotMatter(fs: seq<Frame>, calls: seq<seq<Read>>)
    requires AllFit(fs) && NoneEnds(calls) && Offered(calls) == WireAll(fs)
    requires forall i :: 0 <= i < |fs| - 1 ==> !fs[i].IsDeath()
    ensures Calls(Fresh, calls).heard == HearAll(Silence, fs)
  {
    hide WireAll, Calls, Offered, NoneEnds, HearAll, Frame.IsDeath;
    if fs != [] && fs[|fs| - 1].IsDeath() { EndsInDeath(fs, calls); } else { NoDeathIsHeard(fs, calls); }
  }

  lemma HearOneOrTwo(h: Heard, f: Frame, g: Frame)
    ensures HearAll(h, [f]) == Hear(h, f) && HearAll(h, [f, g]) == Hear(Hear(h, f), g)
  {
    hide Hear;
    assert [f][1..] == [] && [f, g][1..] == [g] && [g][1..] == [];
    assert HearAll(Hear(h, f), [g]) == HearAll(Hear(Hear(h, f), g), []);
    assert HearAll(h, [f, g]) == HearAll(Hear(h, f), [g]);
  }

  lemma WireOneOrTwo(f: Frame, g: Frame)
    requires f.Fits() && g.Fits()
    ensures WireAll([f]) == Wire(f) && WireAll([f, g]) == Wire(f) + Wire(g)
  {
    hide Wire;
    assert [f][1..] == [] && [f, g][1..] == [g] && [g][1..] == [];
    assert Wire(f) + [] == Wire(f) && Wire(g) + [] == Wire(g);
  }

  lemma OneCallHears(fs: seq<Frame>)
    requires AllFit(fs)
    ensures Calls(Fresh, [[Data(WireAll(fs))]]) == Call(Fresh, [Data(WireAll(fs))])
    ensures Call(Fresh, [Data(WireAll(fs))]).heard == HearAll(Silence, fs)
    ensures HearAll(Silence, fs).death ==> Call(Fresh, [Data(WireAll(fs))]).died
  {
    hide Parse, WireAll, Calls, Call, HearAll, FrameReady, OutOfStep;
    var b := WireAll(fs);
    TooShort([]);
    OneCall(Fresh, b);
    FramesParse(Silence, fs, []);
    assert [] + b == b && b + [] == b;
  }

  /** After a death the cutting does matter: frames behind it are heard in the same call only. */
  lemma CuttingMattersAfterDeath()
    ensures var fs := [Frame(WMSG_DIED, []), Frame(WMSG_OUTPUT, [7])];
            && Calls(Fresh, [[Data(WireAll(fs))]]).heard.output == [7]
            && Calls(Fresh, [[Data(Wire(fs[0]))], [Data(Wire(fs[1]))]]).heard.output == []
  {
    var dead, out := Frame(WMSG_DIED, []), Frame(WMSG_OUTPUT, [7]);
    HearOneOrTwo(Silence, dead, out);
    WireOneOrTwo(dead, out);
    var both := Hear(Hear(Silence, dead), out);
    assert both.output == [] + [7] == [7];
    AllFitTwo(dead, out);
    hide *;
    OneCallHears([dead, out]);
    OneCallHears([dead]);
    DeadThenMore(Call(Fresh, [Data(Wire(dead))]), [Data(Wire(dead))], [Data(Wire(out))]);
  }

  /** However the bytes of the frames are cut, the whole stream is heard. */
  ghost predicate HeardUnderEveryCutting(fs: seq<Frame>)
    requires AllFit(fs)
  {
    forall calls | NoneEnds(calls) && Offered(calls) == WireAll(fs) :: Calls(Fresh, calls).heard == HearAll(Silence, fs)
  }

  lemma {:induction false} WireAllSplit(fs: seq<Frame>, k: nat)
    requires AllFit(fs) && k <= |fs|
    ensures AllFit(fs[..k]) && AllFit(fs[k..])
    ensures WireAll(fs) == WireAll(fs[..k]) + WireAll(fs[k..])
  {
    hide Wire;
    if k == 0 {
      assert fs[0..] == fs;
    } else {
      WireAllSplit(fs[1..], k - 1);
      assert fs[..k][0] == fs[0] && fs[..k][1..] == fs[1..][..k - 1] && fs[1..][k - 1..] == fs[k..];
      assert Wire(fs[0]) + (WireAll(fs[1..][..k - 1]) + WireAll(fs[k..]))
          == Wire(fs[0]) + WireAll(fs[1..][..k - 1]) + WireAll(fs[k..]);
    }
  }

  lemma OneRead(a: seq<Byte>)
    ensures Received([Data(a)]) == a && !Ends([Data(a)])
  {
    ReceivedNothing();
    ReceivedStep([Data(a)], 0);
    hide Received, Ends;
    assert [Data(a)][0..] == [Data(a)] && [Data(a)][1..] == [];
    assert a + [] == a;
  }

  lemma TwoCalls(a: seq<Byte>, b: seq<Byte>)
    ensures NoneEnds([[Data(a)], [Data(b)]]) && Offered([[Data(a)], [Data(b)]]) == a + b
  {
    var x, y: seq<Read> := [Data(a)], [Data(b)];
    OneRead(a);
    OneRead(b);
    hide Received, Ends;
    assert [x, y][1..] == [y] && [y][1..] == [];
    assert Offered([y]) == b + Offered([]);
    assert Offered([x, y]) == a + Offered([y]);
    assert b + [] == b;
  }

  /** A cut right behind k frames, a death among them: nothing else is heard. */
  lemma CutAfter(fs: seq<Frame>, d: nat, k: nat) returns (calls: seq<seq<Read>>)
    requires AllFit(fs) && d < k <= |fs| && fs[d].IsDeath()
    ensures NoneEnds(calls) && Offered(calls) == WireAll(fs) && Calls(Fresh, calls).heard == HearAll(Silence, fs[..k])
  {
    WireAllSplit(fs, k);
    var (a, b) := (WireAll(fs[..k]), WireAll(fs[k..]));
    assert fs[..k][d].IsDeath();
    HeardDeath(Silence, fs[..k]);
    hide *;
    TwoCalls(a, b);
    OneCallHears(fs[..k]);
    DeadThenMore(Call(Fresh, [Data(a)]), [Data(a)], [Data(b)]);
    calls := [[Data(a)], [Data(b)]];
  }

  /** A frame that changes nothing of what was heard after a death: no text, and no exit but the one that
      is recorded already. */
  predicate SaysNothingNew(f: Frame, h: Heard) {
    if f.kind == WMSG_OUTPUT || f.kind == WMSG_SCROLLBACK then f.payload == []
    else f.IsDeath() && |f.payload| >= 8 ==>
      h.exit == Some(Exit(ToInt32(ReadU32(f.payload)), ToInt32(ReadU32(f.payload[4..]))))
  }

  lemma HearNothingNew(f: Frame, h: Heard)
    requires h.death
    ensures Hear(h, f) == h <==> SaysNothingNew(f, h)
  {
    hide ToInt32, ReadU32;
    if f.kind == WMSG_OUTPUT {
      assert |h.output + f.payload| == |h.output| + |f.payload|;
      if f.payload == [] { assert h.output + [] == h.output; }
    } else if f.kind == WMSG_SCROLLBACK {
      assert |h.scrollback + f.payload| == |h.scrollback| + |f.payload|;
      if f.payload == [] { assert h.scrollback + [] == h.scrollback; }
    }
  }

  lemma {:induction false} HearLast(h: Heard, fs: seq<Frame>, f: Frame)
    ensures HearAll(h, fs + [f]) == Hear(HearAll(h, fs), f)
    decreases |fs|
  {
    hide Hear;
    if fs == [] {
      assert fs + [f] == [f] && [f][1..] == [];
      assert HearAll(h, [f]) == HearAll(Hear(h, f), []);
    } else {
      assert (fs + [f])[1..] == fs[1..] + [f];
      HearLast(Hear(h, fs[0]), fs[1..], f);
    }
  }

  ghost predicate FirstDeath(fs: seq<Frame>, d: nat) {
    d < |fs| && fs[d].IsDeath() && forall i :: 0 <= i < d ==> !fs[i].IsDeath()
  }

  /** What has been heard up to and with frame d. */
  function HeardThrough(fs: seq<Frame>, d: nat): Heard
    requires d < |fs|
  {
    HearAll(Silence, fs[..d + 1])
  }

  /** No frame behind the first death, if there is one, says anything new. */
  ghost predicate QuietBehindDeath(fs: seq<Frame>) {
    forall d: nat, j: nat | FirstDeath(fs, d) && d < j < |fs| :: SaysNothingNew(fs[j], HeardThrough(fs, d))
  }

  lemma {:induction false} QuietPrefix(fs: seq<Frame>, d: nat, k: nat)
    requires FirstDeath(fs, d) && d < k <= |fs|
    requires forall j: nat :: d < j < k ==> SaysNothingNew(fs[j], HeardThrough(fs, d))
    ensures HearAll(Silence, fs[..k]) == HeardThrough(fs, d)
    decreases k
  {
    hide HearAll, Hear, SaysNothingNew, Frame.IsDeath;
    if k > d + 1 {
      QuietPrefix(fs, d, k - 1);
      assert fs[..k] == fs[..k - 1] + [fs[k - 1]];
      HearLast(Silence, fs[..k - 1], fs[k - 1]);
      DeathThrough(fs, d);
      HearNothingNew(fs[k - 1], HeardThrough(fs, d));
    }
  }

  lemma DeathThrough(fs: seq<Frame>, d: nat)
    requires FirstDeath(fs, d)
    ensures HeardThrough(fs, d).death
  {
    hide HearAll;
    HeardDeath(Silence, fs[..d + 1]);
    assert fs[..d + 1][d] == fs[d];
  }

  lemma FirstDeathIsOne(fs: seq<Frame>) returns (d: nat)
    requires exists i :: 0 <= i < |fs| && fs[i].IsDeath()
    ensures FirstDeath(fs, d)
  {
    d := 0;
    while !fs[d].IsDeath()
      invariant d < |fs| && (forall i :: 0 <= i < d ==> !fs[i].IsDeath())
      invariant exists i :: d <= i < |fs| && fs[i].IsDeath()
      decreases |fs| - d
    {
      d := d + 1;
    }
  }

  /** Under every cutting the first death and all before it are heard, and then some frames more. */
  lemma SomethingBehindDeath(fs: seq<Frame>, d: nat, calls: seq<seq<Read>>) returns (k: nat)
    requires AllFit(fs) && FirstDeath(fs, d)
    requires NoneEnds(calls) && Offered(calls) == WireAll(fs)
    ensures d < k <= |fs| && Calls(Fresh, calls).heard == HearAll(Silence, fs[..k])
  {
    WireAllSplit(fs, d + 1);
    hide HearAll, WireAll, Calls, Offered, NoneEnds, Complete;
    DeathIsHeard(fs, calls, d);
    k := Complete(fs, |Consumed(Fresh, calls)|);
  }

  lemma QuietIsHeard(fs: seq<Frame>, calls: seq<seq<Read>>)
    requires AllFit(fs) && QuietBehindDeath(fs) && NoneEnds(calls) && Offered(calls) == WireAll(fs)
    ensures Calls(Fresh, calls).heard == HearAll(Silence, fs)
  {
    hide HearAll, WireAll, Calls, Offered, NoneEnds, SaysNothingNew, HeardThrough;
    if exists i :: 0 <= i < |fs| && fs[i].IsDeath() {
      var d := FirstDeathIsOne(fs);
      var k := SomethingBehindDeath(fs, d, calls);
      QuietPrefix(fs, d, k);
      QuietPrefix(fs, d, |fs|);
      assert fs[..|fs|] == fs;
    } else {
      CuttingDoesNotMatter(fs, calls);
    }
  }

  lemma HeardEverywhereIsQuiet(fs: seq<Frame>, d: nat, j: nat)
    requires AllFit(fs) && HeardUnderEveryCutting(fs) && FirstDeath(fs, d) && d < j < |fs|
    ensures SaysNothingNew(fs[j], HeardThrough(fs, d))
  {
    hide HearAll, Hear, WireAll, Calls, Offered, NoneEnds, SaysNothingNew, Frame.IsDeath, Frame.Fits;
    var atDeath := CutAfter(fs, d, d + 1);
    var before := CutAfter(fs, d, j);
    var after := CutAfter(fs, d, j + 1);
    assert fs[..j + 1] == fs[..j] + [fs[j]];
    HearLast(Silence, fs[..j], fs[j]);
    DeathThrough(fs, d);
    HearNothingNew(fs[j], HeardThrough(fs, d));
  }

  /** For every stream: the cutting does not matter exactly if behind the first death there are only empty
      OUTPUT and SCROLLBACK frames, deaths without a status or with the one known, and other kinds. */
  lemma CuttingDoesNotMatterIff(fs: seq<Frame>)
    requires AllFit(fs)
    ensures HeardUnderEveryCutting(fs) <==> QuietBehindDeath(fs)
  {
    hide HearAll, WireAll, Calls, Offered, NoneEnds, SaysNothingNew, HeardThrough, FirstDeath, AllFit;
    if HeardUnderEveryCutting(fs) {
      forall d: nat, j: nat | FirstDeath(fs, d) && d < j < |fs| ensures SaysNothingNew(fs[j], HeardThrough(fs, d)) {
        HeardEverywhereIsQuiet(fs, d, j);
      }
    }
    if QuietBehindDeath(fs) {
      forall calls | NoneEnds(calls) && Offered(calls) == WireAll(fs) ensures Calls(Fresh, calls).heard == HearAll(Silence, fs) {
        QuietIsHeard(fs, calls);
      }
    }
  }

  lemma AllFitTwo(f: Frame, g: Frame)
    requires f.Fits() && g.Fits()
    ensures AllFit([f]) && AllFit([f, g])
  {
  }

  lemma DeadThenMore(s: State, first: seq<Read>, more: seq<Read>)
    requires s == Call(Fresh, first) && s.died
    ensures Calls(Fresh, [first, more]) == s
  {
    hide Call;
    assert [first, more][1..] == [more];
    DiedStays(s, [more]);
  }

  lemma OneCall(s: State, b: seq<Byte>)
    requires !s.died
    ensures Calls(s, [[Data(b)]]) == Call(s, [Data(b)])
    ensures Call(s, [Data(b)]).heard == Parse(s.heard, s.rx + b).heard
    ensures Parse(s.heard, s.rx + b).heard.death ==> Call(s, [Data(b)]).died
  {
    var rs := [Data(b)];
    assert rs[1..] == [];
    assert Received(rs) == b + [] == b;
  }

  // ── End to end ────────────────────────────────────────────────────────────────

  lemma {:induction false} WireAllAppend(fs: seq<Frame>, f: Frame)
    requires AllFit(fs) && f.Fits()
    ensures AllFit(fs + [f]) && WireAll(fs + [f]) == WireAll(fs) + Wire(f)
  {
    hide Wire;
    var all := fs + [f];
    if fs == [] {
      assert all[1..] == [];
    } else {
      assert all[0] == fs[0] && all[1..] == fs[1..] + [f];
      WireAllAppend(fs[1..], f);
      assert AllFit(all);
    }
  }

  /** The worker's side and the daemon's together: of whatever the socket has accepted so far, in whatever
      pieces it was read, the daemon has heard exactly the whole frames, from the front of those queued. */
  lemma EndToEnd(c: WorkerClient, calls: seq<seq<Read>>)
    requires c.Valid() && Offered(calls) <= c.sent
    ensures var k := Complete(c.frames, |Consumed(Fresh, calls)|);
            AllFit(c.frames[..k]) && Calls(Fresh, calls).heard == HearAll(Silence, c.frames[..k])
  {
    hide WireAll;
    ConsumedOffered(Fresh, calls);
    assert c.sent <= WireAll(c.frames);
    DeliversCompleteFrames(c.frames, calls);
  }

  /** And once the queue is flushed and read, with no death but at the end: all of them. */
  lemma EndToEndComplete(c: WorkerClient, calls: seq<seq<Read>>)
    requires c.Valid() && c.txOff == |c.tx| && NoneEnds(calls) && Offered(calls) == c.sent
    requires forall i :: 0 <= i < |c.frames| - 1 ==> !c.frames[i].IsDeath()
    ensures Calls(Fresh, calls).heard == HearAll(Silence, c.frames)
  {
    hide WireAll, Calls, HearAll, Offered, NoneEnds;
    assert c.tx[c.txOff..] == [];
    assert c.sent + [] == c.sent;
    CuttingDoesNotMatter(c.frames, calls);
  }

  // ── A worker's last words, byte by byte ───────────────────────────────────────

  /** Two's complement, high byte first. */
  function Int32Bytes(v: int): (s: seq<Byte>)
    requires -0x8000_0000 <= v < 0x8000_0000
    ensures |s| == 4
  {
    var u := if v < 0 then v + 0x1_0000_0000 else v;
    [u / 0x100_0000, u / 0x1_0000 % 0x100, u / 0x100 % 0x100, u % 0x100]
  }

  lemma Int32Reads(v: int, rest: seq<Byte>)
    requires -0x8000_0000 <= v < 0x8000_0000
    ensures ToInt32(ReadU32(Int32Bytes(v) + rest)) == v
  {
    var u := if v < 0 then v + 0x1_0000_0000 else v;
    assert Int32Bytes(v) == Be32(u);
    hide Be32, Int32Bytes, ReadU32;
    Be32RoundTrip(u, rest);
  }

  lemma WireBytes(f: Frame)
    requires |f.payload| <= 16777216
    ensures f.Fits() && Wire(f) == [f.kind] + Int32Bytes(|f.payload|) + f.payload
  {
  }

  lemma DiedIsHeard(h: Heard, code: int, signal: int)
    requires -0x8000_0000 <= code < 0x8000_0000 && -0x8000_0000 <= signal < 0x8000_0000
    ensures Hear(h, Frame(0x83, Int32Bytes(code) + Int32Bytes(signal))) == h.(death := true, exit := Some(Exit(code, signal)))
  {
    Int32Reads(code, Int32Bytes(signal));
    Int32Reads(signal, []);
    assert (Int32Bytes(code) + Int32Bytes(signal))[4..] == Int32Bytes(signal) + [];
    hide Int32Bytes, ReadU32;
  }

  lemma HearThree(h: Heard, a: Frame, b: Frame, c: Frame)
    ensures HearAll(h, [a, b, c]) == Hear(Hear(Hear(h, a), b), c)
  {
    hide Hear;
    assert [a, b, c][1..] == [b, c];
    HearOneOrTwo(Hear(h, a), b, c);
  }

  lemma WireThree(a: Frame, b: Frame, c: Frame)
    requires a.Fits() && b.Fits() && c.Fits()
    ensures WireAll([a, b, c]) == Wire(a) + Wire(b) + Wire(c)
  {
    hide Wire;
    assert [a, b, c][1..] == [b, c];
    WireOneOrTwo(b, c);
    assert Wire(a) + (Wire(b) + Wire(c)) == Wire(a) + Wire(b) + Wire(c);
  }

  lemma LastWordsHeard(history: seq<Byte>, output: seq<Byte>, code: int, signal: int)
    requires -0x8000_0000 <= code < 0x8000_0000 && -0x8000_0000 <= signal < 0x8000_0000
    ensures HearAll(Silence, [Frame(0x82, history), Frame(0x81, output), Frame(0x83, Int32Bytes(code) + Int32Bytes(signal))])
         == Heard(output, history, Some(Exit(code, signal)), true)
  {
    var (a, b, c) := (Frame(0x82, history), Frame(0x81, output), Frame(0x83, Int32Bytes(code) + Int32Bytes(signal)));
    HearThree(Silence, a, b, c);
    assert Hear(Silence, a) == Heard([], [] + history, None, false);
    assert [] + history == history && [] + output == output;
    DiedIsHeard(Heard(output, history, None, false), code, signal);
  }

  lemma LastWordsWire(history: seq<Byte>, output: seq<Byte>, code: int, signal: int)
    requires |history| <= 16777216 && |output| <= 16777216
    requires -0x8000_0000 <= code < 0x8000_0000 && -0x8000_0000 <= signal < 0x8000_0000
    ensures var fs := [Frame(0x82, history), Frame(0x81, output), Frame(0x83, Int32Bytes(code) + Int32Bytes(signal))];
            AllFit(fs) && WireAll(fs) == [0x82] + Int32Bytes(|history|) + history + ([0x81] + Int32Bytes(|output|) + output)
                                         + ([0x83, 0, 0, 0, 8] + Int32Bytes(code) + Int32Bytes(signal))
  {
    var (a, b, c) := (Frame(0x82, history), Frame(0x81, output), Frame(0x83, Int32Bytes(code) + Int32Bytes(signal)));
    WireBytes(a);
    WireBytes(b);
    WireBytes(c);
    assert Int32Bytes(8) == [0, 0, 0, 8];
    hide Int32Bytes, Wire, WireAll;
    WireThree(a, b, c);
    assert [0x83] + [0, 0, 0, 8] + (Int32Bytes(code) + Int32Bytes(signal))
        == [0x83, 0, 0, 0, 8] + Int32Bytes(code) + Int32Bytes(signal);
  }

  /** The bytes of a worker that sends its history, its last output and how its child ended, in whatever
      pieces they arrive: for every exit code and signal of 32 bits, negative ones too. */
  lemma LastWords(history: seq<Byte>, output: seq<Byte>, code: int, signal: int, calls: seq<seq<Read>>)
    requires |history| <= 16777216 && |output| <= 16777216
    requires -0x8000_0000 <= code < 0x8000_0000 && -0x8000_0000 <= signal < 0x8000_0000
    requires NoneEnds(calls)
    requires Offered(calls) == [0x82] + Int32Bytes(|history|) + history + ([0x81] + Int32Bytes(|output|) + output)
                               + ([0x83, 0, 0, 0, 8] + Int32Bytes(code) + Int32Bytes(signal))
    ensures Calls(Fresh, calls).heard == Heard(output, history, Some(Exit(code, signal)), true)
  {
    var fs := [Frame(0x82, history), Frame(0x81, output), Frame(0x83, Int32Bytes(code) + Int32Bytes(signal))];
    assert !fs[0].IsDeath() && !fs[1].IsDeath();
    hide Int32Bytes, WireAll, Calls, Offered, NoneEnds, HearAll, Frame.IsDeath;
    LastWordsWire(history, output, code, signal);
    LastWordsHeard(history, output, code, signal);
    CuttingDoesNotMatter(fs, calls);
  }
}
