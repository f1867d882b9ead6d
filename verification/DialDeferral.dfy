/** The dial tie-break of bs-mesh-conn.h: of two peers the larger one waits to be called, in windows
    that double, and probes once when they are used up. */
module DialDeferral {
  import opened Bytes
  import opened Keys

  const ACCEPT_WINDOW_MS := 12000
  const MAX_EXTENDS := 5

  datatype Peer = Peer(name: string, addr: string, pubkey: string)

  /** should_accept_only_for: by public key when both are known and differ, else by name. */
  predicate ShouldAcceptOnly(ourKey: string, ourName: string, peer: Peer) {
    if ourKey != "" && peer.pubkey != "" && ourKey != peer.pubkey then Less(peer.pubkey, ourKey)
    else if ourName != "" && peer.name != "" && AsciiLower(ourName) != AsciiLower(peer.name) then
      Less(AsciiLower(peer.name), AsciiLower(ourName))
    else false
  }

  /** What is remembered about one address: the end of its window and the extensions spent. */
  datatype Entry = Entry(until: Option<int>, spent: nat)

  function Window(spent: nat): int
    requires spent <= MAX_EXTENDS
  {
    if spent == 0 then ACCEPT_WINDOW_MS else 2 * Window(spent - 1)
  }

  /** One scheduling pass for an address the tie-break applies to: the new entry, and whether to wait. */
  function DeferStep(e: Entry, now: int): (Entry, bool)
    requires e.spent <= MAX_EXTENDS
  {
    match e.until
    case None => (Entry(Some(now + Window(0)), e.spent), true)
    case Some(until) =>
      if now < until then (e, true)
      else if e.spent < MAX_EXTENDS then (Entry(Some(now + Window(e.spent + 1)), e.spent + 1), true)
      else (Entry(Some(now + Window(0)), 0), false)
  }

  class DialGate {
    const ourPubkey: string
    const nodeName: string
    var acceptOnlyUntil: map<string, int>
    var probeExtends: map<string, nat>

    ghost predicate Valid()
      reads this
    {
      forall a :: a in probeExtends ==> probeExtends[a] <= MAX_EXTENDS
    }

    /** The two maps, read at one address. */
    function EntryOf(addr: string): (e: Entry)
      reads this
    {
      Entry(if addr in acceptOnlyUntil then Some(acceptOnlyUntil[addr]) else None,
            if addr in probeExtends then probeExtends[addr] else 0)
    }

    constructor (ourPubkey: string, nodeName: string)
      ensures Valid() && this.ourPubkey == ourPubkey && this.nodeName == nodeName
      ensures acceptOnlyUntil == map[] && probeExtends == map[]
    {
      this.ourPubkey, this.nodeName := ourPubkey, nodeName;
      acceptOnlyUntil, probeExtends := map[], map[];
    }

    method ShouldDeferOutbound(peer: Peer, now: int) returns (defer: bool)
      requires Valid()
      modifies this
      ensures Valid()
      ensures peer.addr == "" || !ShouldAcceptOnly(ourPubkey, nodeName, peer) ==>
                !defer && acceptOnlyUntil == old(acceptOnlyUntil) && probeExtends == old(probeExtends)
      ensures peer.addr != "" && ShouldAcceptOnly(ourPubkey, nodeName, peer) ==>
                && (EntryOf(peer.addr), defer) == DeferStep(old(EntryOf(peer.addr)), now)
                && forall a :: a != peer.addr ==> EntryOf(a) == old(EntryOf(a))
    {
      hide ShouldAcceptOnly;
      if peer.addr == "" || !ShouldAcceptOnly(ourPubkey, nodeName, peer) { return false; }
      if peer.addr !in acceptOnlyUntil {
        acceptOnlyUntil := acceptOnlyUntil[peer.addr := now + ACCEPT_WINDOW_MS];
        return true;
      }
      if now >= acceptOnlyUntil[peer.addr] {
        var ext := if peer.addr in probeExtends then probeExtends[peer.addr] else 0;
        if ext < MAX_EXTENDS {
          ext := ext + 1;
          probeExtends := probeExtends[peer.addr := ext];
          acceptOnlyUntil := acceptOnlyUntil[peer.addr := now + Window(ext)];
          return true;
        }
        probeExtends := probeExtends - {peer.addr};
        acceptOnlyUntil := acceptOnlyUntil[peer.addr := now + ACCEPT_WINDOW_MS];
        return false;
      }
      return true;
    }

    /** clear_accept_only_for: both the dialled and the advertised address are forgotten. */
    method ClearAcceptOnly(addr: string, listenAddr: string)
      requires Valid()
      modifies this
      ensures Valid()
      ensures forall a :: EntryOf(a) == if a != "" && (a == addr || a == listenAddr) then Entry(None, 0)
                                        else old(EntryOf(a))
    {
      if addr != "" {
        acceptOnlyUntil, probeExtends := acceptOnlyUntil - {addr}, probeExtends - {addr};
      }
      if listenAddr != "" {
        acceptOnlyUntil, probeExtends := acceptOnlyUntil - {listenAddr}, probeExtends - {listenAddr};
      }
    }
  }

  // ── Who waits ─────────────────────────────────────────────────────────────────

  /** With both keys known to both sides and distinct, exactly one side waits, whatever the names. */
  lemma ExactlyOneDefers(keyA: string, nameA: string, addrA: string, keyB: string, nameB: string, addrB: string)
    requires keyA != "" && keyB != "" && keyA != keyB
    ensures ShouldAcceptOnly(keyA, nameA, Peer(nameB, addrB, keyB))
         != ShouldAcceptOnly(keyB, nameB, Peer(nameA, addrA, keyA))
    ensures ShouldAcceptOnly(keyA, nameA, Peer(nameB, addrB, keyB)) <==> Less(keyB, keyA)
  {
    LessIsTotal(keyA, keyB);
  }

  /** The order by name, where both names say something. */
  predicate NameBefore(a: string, b: string) {
    a != "" && b != "" && Less(AsciiLower(a), AsciiLower(b))
  }

  /** Where neither side can tell the keys apart, one of them being unknown or both the same, exactly one waits
      if and only if both have a name and the names differ beyond their case; it is the one whose name comes
      later. */
  lemma ExactlyOneDefersByName(keyA: string, nameA: string, addrA: string, keyB: string, nameB: string, addrB: string,
                               keyAtA: string, keyAtB: string)
    requires keyA == "" || keyAtA == "" || keyA == keyAtA
    requires keyB == "" || keyAtB == "" || keyB == keyAtB
    ensures var (a, b) := (ShouldAcceptOnly(keyA, nameA, Peer(nameB, addrB, keyAtA)),
                           ShouldAcceptOnly(keyB, nameB, Peer(nameA, addrA, keyAtB)));
            && (a != b <==> nameA != "" && nameB != "" && AsciiLower(nameA) != AsciiLower(nameB))
            && (a <==> NameBefore(nameB, nameA)) && (b <==> NameBefore(nameA, nameB))
  {
    LessIsTotal(AsciiLower(nameA), AsciiLower(nameB));
  }

  /** When only A knows the other's key, A decides by key and B by name: exactly one waits if and
      only if the two orders agree, and both wait if and only if A is after B by key and before B by name. */
  lemma HalfKnownKeys(keyA: string, nameA: string, addrA: string, keyB: string, nameB: string, addrB: string)
    requires keyA != "" && keyB != "" && keyA != keyB
    ensures var (a, b) := (ShouldAcceptOnly(keyA, nameA, Peer(nameB, addrB, keyB)),
                           ShouldAcceptOnly(keyB, nameB, Peer(nameA, addrA, "")));
            && (a != b <==> (Less(keyA, keyB) <==> NameBefore(nameA, nameB)))
            && (a && b <==> Less(keyB, keyA) && NameBefore(nameA, nameB))
  {
    LessIsTotal(keyA, keyB);
    LessIsTotal(AsciiLower(nameA), AsciiLower(nameB));
  }

  /** Both waiting for the other, concretely. */
  lemma BothMayDefer()
    ensures ShouldAcceptOnly("f", "a", Peer("b", "h:1", "0"))
    ensures ShouldAcceptOnly("0", "b", Peer("a", "h:2", ""))
  {
    assert AsciiLower("a") == "a" && AsciiLower("b") == "b";
    assert "a"[0] < "b"[0] && "0"[0] < "f"[0];
  }

  // ── How long the waiting side waits ───────────────────────────────────────────

  /** The windows still to be spent after `spent` extensions. */
  function Left(spent: nat): int
    requires spent <= MAX_EXTENDS
    decreases MAX_EXTENDS - spent
  {
    if spent == MAX_EXTENDS then 0 else Window(spent + 1) + Left(spent + 1)
  }

  const PROBE_PERIOD_MS := 756000

  lemma WindowsAddUp()
    ensures Window(0) + Left(0) == PROBE_PERIOD_MS
  {
    assert Window(1) == 24000 && Window(2) == 48000 && Window(3) == 96000;
    assert Window(4) == 192000 && Window(5) == 384000;
    assert Left(5) == 0 && Left(4) == 384000 && Left(3) == 576000 && Left(2) == 672000 && Left(1) == 720000;
  }

  /** The index of the first poll that may dial; |ts| when none may. */
  function FirstProbe(e: Entry, ts: seq<int>): (k: nat)
    requires e.spent <= MAX_EXTENDS
    ensures k <= |ts|
    decreases |ts|
  {
    if ts == [] then 0
    else
      var (e', wait) := DeferStep(e, ts[0]);
      if wait then 1 + FirstProbe(e', ts[1..]) else 0
  }

  lemma {:induction false} NoProbeBefore(e: Entry, ts: seq<int>)
    requires e.spent <= MAX_EXTENDS && e.until.Some?
    ensures FirstProbe(e, ts) < |ts| ==> ts[FirstProbe(e, ts)] >= e.until.value + Left(e.spent)
    decreases |ts|
  {
    if ts != [] {
      var (e', wait) := DeferStep(e, ts[0]);
      if wait { NoProbeBefore(e', ts[1..]); }
    }
  }

  /** Polls that come at most d apart, the first at most d after `last`. */
  predicate PolledEvery(last: int, ts: seq<int>, d: nat)
    decreases |ts|
  {
    ts == [] || (last <= ts[0] <= last + d && PolledEvery(ts[0], ts[1..], d))
  }

  lemma {:induction false} ProbeBy(e: Entry, last: int, ts: seq<int>, d: nat)
    requires e.spent <= MAX_EXTENDS && e.until.Some? && last <= e.until.value
    requires PolledEvery(last, ts, d)
    requires ts != [] && ts[|ts| - 1] >= e.until.value + Left(e.spent) + (6 - e.spent) * d
    ensures var k := FirstProbe(e, ts);
            k < |ts| && ts[k] <= e.until.value + Left(e.spent) + (6 - e.spent) * d
    decreases |ts|
  {
    hide Window, Left;
    var (e', wait) := DeferStep(e, ts[0]);
    MulNonNegative(5 - e.spent, d);
    assert (6 - e.spent) * d == d + (5 - e.spent) * d;
    LeftStep(e.spent);
    if wait {
      assert |ts| > 1;
      ProbeBy(e', ts[0], ts[1..], d);
    }
  }

  lemma LeftStep(spent: nat)
    requires spent <= MAX_EXTENDS
    ensures Left(spent) == if spent == MAX_EXTENDS then 0 else Window(spent + 1) + Left(spent + 1)
    ensures if spent == MAX_EXTENDS then Left(spent) == 0 else Window(spent + 1) > 0 && Left(spent) > 0
    decreases MAX_EXTENDS - spent
  {
    if spent < MAX_EXTENDS {
      WindowIsPositive(spent + 1);
      LeftStep(spent + 1);
    }
  }

  lemma {:induction false} WindowIsPositive(spent: nat)
    requires spent <= MAX_EXTENDS
    ensures Window(spent) > 0
  {
    if spent > 0 { WindowIsPositive(spent - 1); }
  }

  /** Of a window opened at t0 with nothing spent, over any later polls: how long until one may dial. */
  ghost predicate WaitsOnePeriod(e: Entry, t0: int, ts: seq<int>, d: nat)
    requires e.spent <= MAX_EXTENDS
  {
    var k := FirstProbe(e, ts);
    && (k < |ts| ==> ts[k] - t0 >= 756000)
    && (PolledEvery(t0, ts, d) && ts != [] && ts[|ts| - 1] - t0 >= 756000 + 6 * d ==>
          k < |ts| && ts[k] - t0 <= 756000 + 6 * d)
  }

  lemma FreshWindow(t0: int, ts: seq<int>, d: nat)
    ensures WaitsOnePeriod(Entry(Some(t0 + Window(0)), 0), t0, ts, d)
  {
    hide Window, Left, FirstProbe, PolledEvery;
    var e := Entry(Some(t0 + Window(0)), 0);
    WindowsAddUp();
    WindowIsPositive(0);
    NoProbeBefore(e, ts);
    if PolledEvery(t0, ts, d) && ts != [] && ts[|ts| - 1] - t0 >= PROBE_PERIOD_MS + 6 * d {
      ProbeBy(e, t0, ts, d);
    }
  }

  /** From one permitted probe at t0 to the next, over any later polls with no clear in between: at
      least 756 seconds pass, and with polls at most d apart at most 756 seconds and 6 d. */
  lemma ProbePeriod(before: Entry, t0: int, ts: seq<int>, d: nat)
    requires before.spent <= MAX_EXTENDS && DeferStep(before, t0).1 == false
    ensures WaitsOnePeriod(DeferStep(before, t0).0, t0, ts, d)
  {
    hide WaitsOnePeriod;
    FreshWindow(t0, ts, d);
  }

  /** A peer never seen before is deferred just as long: the first pass only opens the window. */
  lemma FirstContact(t0: int, ts: seq<int>, d: nat)
    ensures var (e, wait) := DeferStep(Entry(None, 0), t0);
            wait && WaitsOnePeriod(e, t0, ts, d)
  {
    hide WaitsOnePeriod;
    FreshWindow(t0, ts, d);
  }
}
