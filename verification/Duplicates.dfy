/** Duplicate connections between the same two peers (bs-mesh-conn.h): what one endpoint keeps, and
    how two endpoints that decide alone come to keep the same link. */
module Duplicates {
  import opened Bytes
  import opened Keys
  import opened Sequences

  /** The fields of a Conn that the resolution looks at, and those that a close changes. */
  datatype Conn = Conn(id: nat, peerPubkey: string, peerName: string, peerAddr: string, isOutbound: bool, isMesh: bool,
                       open: bool, execBusy: bool, closeRequested: bool, attached: Attachment, receive: Receive)

  /** attached_session, attach_id and spectator. */
  datatype Attachment = Attachment(session: Option<nat>, id: nat, spectator: bool)

  /** pending_recv_dir, and whether a file is being received. */
  datatype Receive = Receive(dir: string, active: bool)

  datatype Backoff = Backoff(delayMs: int, attempt: int, nextAttempt: int)

  /** A call that takes a session's viewer away: the session, the attach id, and who was attached. */
  datatype Detach = Detach(session: nat, id: nat, peerPubkey: string)

  const REDIAL_MS := 10000

  /** duplicate_index_to_drop: 0 for the older of the two, 1 for the newer. */
  function DuplicateIndexToDrop(iMatches: bool, jMatches: bool): nat {
    if iMatches && !jMatches then 1 else 0
  }

  /** connections_are_mesh_duplicates. */
  predicate AreMeshDuplicates(a: Conn, b: Conn) {
    a.isMesh && b.isMesh && a.peerPubkey != "" && a.peerPubkey == b.peerPubkey
  }

  /** The direction the rule keeps: opened by whichever side has the smaller key. */
  predicate Wanted(our: string, c: Conn) {
    c.isOutbound == Less(our, c.peerPubkey)
  }

  // ── What one endpoint keeps ───────────────────────────────────────────────────

  predicate Rivals(a: Conn, b: Conn) {
    a.open && b.open && AreMeshDuplicates(a, b)
  }

  predicate Newer(cs: seq<Conn>, k: nat, j: int)
    requires k < |cs|
  {
    k < j < |cs| && Rivals(cs[k], cs[j])
  }

  predicate WantedRival(our: string, cs: seq<Conn>, k: nat, j: int)
    requires k < |cs|
  {
    0 <= j < |cs| && Rivals(cs[k], cs[j]) && Wanted(our, cs[j])
  }

  ghost predicate HasNewer(cs: seq<Conn>, k: nat)
    requires k < |cs|
  {
    exists j :: Newer(cs, k, j)
  }

  ghost predicate HasWanted(our: string, cs: seq<Conn>, k: nat)
    requires k < |cs|
  {
    exists j :: WantedRival(our, cs, k, j)
  }

  ghost predicate HasNewerWanted(our: string, cs: seq<Conn>, k: nat)
    requires k < |cs|
  {
    exists j :: Newer(cs, k, j) && WantedRival(our, cs, k, j)
  }

  /** The newest of its key with the wanted direction; if none has it, the newest; and everything
      that is no open mesh link to a known key. */
  ghost predicate Survives(our: string, cs: seq<Conn>, k: nat)
    requires k < |cs|
  {
    if Wanted(our, cs[k]) then !HasNewerWanted(our, cs, k)
    else !HasWanted(our, cs, k) && !HasNewer(cs, k)
  }

  /** The survivors at or after position k, in order. */
  ghost function KeptFrom(our: string, cs: seq<Conn>, k: nat): seq<Conn>
    requires k <= |cs|
    decreases |cs| - k
  {
    if k == |cs| then []
    else (if Survives(our, cs, k) then [cs[k]] else []) + KeptFrom(our, cs, k + 1)
  }

  ghost function Kept(our: string, cs: seq<Conn>): seq<Conn> {
    KeptFrom(our, cs, 0)
  }

  // ── Closing ───────────────────────────────────────────────────────────────────

  predicate Replaces(a: Conn, b: Conn) {
    a.open && a.attached.session == b.attached.session && a.peerPubkey == b.peerPubkey
  }

  /** has_replacement_transport. */
  ghost predicate HasReplacement(cs: seq<Conn>, i: nat)
    requires i < |cs|
  {
    cs[i].attached.session.Some? && exists j :: 0 <= j < |cs| && j != i && Replaces(cs[j], cs[i])
  }

  function Closed(c: Conn): Conn {
    c.(open := false, closeRequested := false, receive := Receive("", false),
       attached := if c.attached.session.Some? then Attachment(None, 0, false) else c.attached)
  }

  /** The calls that closing position i makes. */
  ghost function Detaches(cs: seq<Conn>, i: nat): seq<Detach>
    requires i < |cs|
  {
    var a := cs[i].attached;
    if a.session.Some? && !HasReplacement(cs, i) then [Detach(a.session.value, a.id, cs[i].peerPubkey)] else []
  }

  /** What a peer last said is forgotten, nobody else's. */
  function Erased(gossip: map<string, string>, name: string): (r: map<string, string>)
    ensures name != "" ==> name !in r
    ensures forall n :: n in r <==> n in gossip && (n == "" || n != name)
    ensures forall n :: n in r ==> r[n] == gossip[n]
  {
    if name == "" then gossip else gossip - {name}
  }

  /** What remove_conn leaves for the address of the connection. */
  function HoldOff(backoffs: map<string, Backoff>, addr: string, now: int): map<string, Backoff> {
    if addr == "" then backoffs
    else
      var b := if addr in backoffs then backoffs[addr] else Backoff(REDIAL_MS, 0, 0);
      backoffs[addr := Backoff(if b.delayMs < REDIAL_MS then REDIAL_MS else b.delayMs,
                               if b.attempt < 1 then 1 else b.attempt, now + REDIAL_MS)]
  }

  /** Nothing is dialled there for ten seconds. */
  predicate HeldOff(backoffs: map<string, Backoff>, addr: string, now: int) {
    addr != "" ==> addr in backoffs && backoffs[addr].nextAttempt == now + 10000
                   && backoffs[addr].attempt >= 1 && backoffs[addr].delayMs >= 10000
  }

  /** Some open link to the peer is attached to the session. */
  ghost predicate Attached(cs: seq<Conn>, session: nat, key: string) {
    exists j :: 0 <= j < |cs| && AttachedAt(cs, j, session, key)
  }

  predicate AttachedAt(cs: seq<Conn>, j: nat, session: nat, key: string)
    requires j < |cs|
  {
    cs[j].open && cs[j].attached.session == Some(session) && cs[j].peerPubkey == key
  }

  ghost predicate Detached(calls: seq<Detach>, session: nat, key: string) {
    exists d :: d in calls && d.session == session && d.peerPubkey == key
  }

  /** Of every peer attached to a session before, it is attached still or was detached, and not both. */
  ghost predicate Ledger(before: seq<Conn>, cs: seq<Conn>, calls: seq<Detach>) {
    forall session, key ::
      && (Attached(before, session, key) <==> Attached(cs, session, key) || Detached(calls, session, key))
      && !(Attached(cs, session, key) && Detached(calls, session, key))
  }

  lemma SameReplacement(cs: seq<Conn>, ds: seq<Conn>, i: nat)
    requires i < |cs| && ds == cs[i := cs[i].(closeRequested := false, receive := Receive("", false))]
    ensures HasReplacement(ds, i) == HasReplacement(cs, i)
  {
    assert forall j :: 0 <= j < |cs| && j != i ==> (Replaces(ds[j], ds[i]) <==> Replaces(cs[j], cs[i]));
  }

  class Mesh {
    const ourPubkey: string
    var conns: seq<Conn>
    var backoffs: map<string, Backoff>
    var gossipSessions: map<string, string>
    var gossipLatency: map<string, string>
    var detached: seq<Detach>

    constructor (key: string, cs: seq<Conn>)
      ensures ourPubkey == key && conns == cs && detached == []
    {
      ourPubkey, conns := key, cs;
      backoffs, gossipSessions, gossipLatency, detached := map[], map[], map[], [];
    }

    method HasReplacementTransport(i: nat) returns (found: bool)
      requires i < |conns|
      ensures found == HasReplacement(conns, i)
    {
      if conns[i].attached.session.None? { return false; }
      for j := 0 to |conns|
        invariant forall k :: 0 <= k < j && k != i ==> !Replaces(conns[k], conns[i])
      {
        if j != i && Replaces(conns[j], conns[i]) { return true; }
      }
      return false;
    }

    /** detach_connection_session, of a connection that has a session. */
    method DetachSession(i: nat, replaced: bool)
      requires i < |conns| && conns[i].attached.session.Some?
      modifies this`conns, this`detached
      ensures conns == old(conns)[i := old(conns)[i].(attached := Attachment(None, 0, false))]
      ensures var c := old(conns)[i];
              detached == if replaced then old(detached)
                          else old(detached) + [Detach(c.attached.session.value, c.attached.id, c.peerPubkey)]
    {
      var was := conns[i].attached;
      conns := conns[i := conns[i].(attached := Attachment(None, 0, false))];
      if !replaced { detached := detached + [Detach(was.session.value, was.id, conns[i].peerPubkey)]; }
    }

    /** close_conn: a transport owned by a worker is only marked. */
    method CloseConn(i: nat) returns (closed: bool)
      requires i < |conns|
      modifies this
      ensures closed == !old(conns)[i].execBusy
      ensures conns == old(conns)[i := if closed then Closed(old(conns)[i]) else old(conns)[i].(closeRequested := true)]
      ensures detached == old(detached) + if closed then Detaches(old(conns), i) else []
      ensures var name := if closed then old(conns)[i].peerName else "";
              gossipSessions == Erased(old(gossipSessions), name) && gossipLatency == Erased(old(gossipLatency), name)
      ensures backoffs == old(backoffs)
    {
      if conns[i].execBusy {
        conns := conns[i := conns[i].(closeRequested := true)];
        return false;
      }
      ghost var cs, calls := conns, detached;
      hide HasReplacement, Replaces;
      conns := conns[i := conns[i].(closeRequested := false, receive := Receive("", false))];
      if conns[i].attached.session.Some? {
        var replaced := HasReplacementTransport(i);
        SameReplacement(cs, conns, i);
        DetachSession(i, replaced);
      }
      assert detached == calls + Detaches(cs, i) && conns[i].open == cs[i].open && conns[i].peerName == cs[i].peerName;
      assert conns[i := conns[i].(open := false)] == cs[i := Closed(cs[i])];
      hide Detaches, Closed, Erased;
      gossipSessions, gossipLatency := Erased(gossipSessions, conns[i].peerName), Erased(gossipLatency, conns[i].peerName);
      if conns[i].open { conns := conns[i := conns[i].(open := false)]; }
      return true;
    }

    /** remove_conn. */
    method RemoveConn(index: nat, now: int) returns (removed: bool)
      modifies this
      ensures index >= |old(conns)| ==> !removed && conns == old(conns)
      ensures index < |old(conns)| ==>
                && removed == !old(conns)[index].execBusy
                && conns == if removed then Without(old(conns), index)
                            else old(conns)[index := old(conns)[index].(closeRequested := true)]
      ensures !removed ==> backoffs == old(backoffs) && detached == old(detached)
                           && gossipSessions == old(gossipSessions) && gossipLatency == old(gossipLatency)
      ensures removed ==>
                && var c := old(conns)[index];
                   && backoffs == HoldOff(old(backoffs), c.peerAddr, now)
                   && detached == old(detached) + Detaches(old(conns), index)
                   && gossipSessions == Erased(old(gossipSessions), c.peerName)
                   && gossipLatency == Erased(old(gossipLatency), c.peerName)
    {
      if index >= |conns| { return false; }
      var closed := CloseConn(index);
      if !closed { return false; }
      backoffs := HoldOff(backoffs, conns[index].peerAddr, now);
      conns := conns[..index] + conns[index + 1..];
      return true;
    }

    /** resolve_duplicates: drop one of the first pair of duplicates, rescan, until none is left or
        a removal has to wait for a worker. */
    method ResolveDuplicates(now: int) returns (finished: bool)
      modifies this
      ensures finished ==> conns == Kept(ourPubkey, old(conns))
      ensures Kept(ourPubkey, conns) == Kept(ourPubkey, old(conns))
      ensures (forall k :: 0 <= k < |old(conns)| && !Survives(ourPubkey, old(conns), k) ==> !old(conns)[k].execBusy) ==>
                finished
      ensures old(detached) <= detached && Ledger(old(conns), conns, detached[|old(detached)|..])
      ensures finished ==> forall c :: c in old(conns) ==> c in conns || HeldOff(backoffs, c.peerAddr, now)
    {
      hide Survives, Kept, Less, Follows, Detaches, HoldOff, Ledger, HeldOff;
      ghost var before, calls, n := conns, detached, |detached|;
      assert detached[n..] == [];
      FollowsItself(ourPubkey, before, backoffs, now);
      var restarted := true;
      while restarted
        invariant calls <= detached && Follows(ourPubkey, before, conns, detached[n..], backoffs, now)
        invariant !restarted ==> NoRivals(conns)
        decreases |conns|, restarted
      {
        restarted := false;
        ghost var cs := conns;
        var i := 0;
        while i < |conns| && !restarted
          invariant i <= |cs| && if restarted then |conns| < |cs| else conns == cs
          invariant calls <= detached && Follows(ourPubkey, before, conns, detached[n..], backoffs, now)
          invariant !restarted ==> forall a, b :: 0 <= a < i && a < b < |cs| ==> !Rivals(cs[a], cs[b])
          decreases |cs| - i, !restarted
        {
          if conns[i].open {
            var j := i + 1;
            while j < |conns| && !restarted
              invariant i < j <= |cs| && if restarted then |conns| < |cs| else conns == cs
              invariant calls <= detached && Follows(ourPubkey, before, conns, detached[n..], backoffs, now)
              invariant !restarted ==> forall b :: i < b < j ==> !Rivals(cs[i], cs[b])
              decreases |cs| - j, !restarted
            {
              if conns[j].open && AreMeshDuplicates(conns[i], conns[j]) {
                var weAreSmaller := Less(ourPubkey, conns[i].peerPubkey);
                var iMatches := conns[i].isOutbound == weAreSmaller;
                var jMatches := conns[j].isOutbound == weAreSmaller;
                var drop := if DuplicateIndexToDrop(iMatches, jMatches) == 0 then i else j;
                LoserOfPair(ourPubkey, cs, i, j);
                DropFollows(ourPubkey, before, cs, drop, detached[n..], backoffs, now);
                assert (detached + Detaches(cs, drop))[n..] == detached[n..] + Detaches(cs, drop);
                var removed := RemoveConn(drop, now);
                if !removed {
                  BusyStays(ourPubkey, before, cs, drop, detached[n..], backoffs, now);
                  return false;
                }
                restarted := true;
              } else {
                j := j + 1;
              }
            }
          }
          if !restarted { i := i + 1; }
        }
      }
      FollowsToTheEnd(ourPubkey, before, conns, detached[n..], backoffs, now);
      return true;
    }
  }

  // ── One resolution ────────────────────────────────────────────────────────────

  /** What a resolution has done so far. */
  ghost predicate Follows(our: string, before: seq<Conn>, cs: seq<Conn>, calls: seq<Detach>,
                          backoffs: map<string, Backoff>, now: int)
  {
    && Kept(our, cs) == Kept(our, before)
    && (LosersIdle(our, before) ==> LosersIdle(our, cs))
    && Ledger(before, cs, calls)
    && forall c :: c in before ==> c in cs || HeldOff(backoffs, c.peerAddr, now)
  }

  lemma FollowsItself(our: string, before: seq<Conn>, backoffs: map<string, Backoff>, now: int)
    ensures Follows(our, before, before, [], backoffs, now)
  {
    hide Kept, LosersIdle, HeldOff, Attached;
  }

  lemma DropFollows(our: string, before: seq<Conn>, cs: seq<Conn>, d: nat, calls: seq<Detach>,
                    backoffs: map<string, Backoff>, now: int)
    requires Follows(our, before, cs, calls, backoffs, now) && d < |cs| && !Survives(our, cs, d) && cs[d].open
    ensures Follows(our, before, Without(cs, d), calls + Detaches(cs, d), HoldOff(backoffs, cs[d].peerAddr, now), now)
  {
    hide Kept, LosersIdle, Ledger, Survives, HeldOff, HoldOff, Detaches;
    DropLoser(our, cs, d);
    DropKeepsIdle(our, cs, d);
    DropKeepsLedger(before, cs, d, calls);
    forall c | c in before ensures c in Without(cs, d) || HeldOff(HoldOff(backoffs, cs[d].peerAddr, now), c.peerAddr, now) {
      HoldsOff(backoffs, cs[d].peerAddr, c.peerAddr, now);
      InWithout(cs, d, c);
    }
  }

  /** Nobody else's entry changes, and longer delays and more attempts are kept. */
  lemma HoldsOff(backoffs: map<string, Backoff>, addr: string, other: string, now: int)
    ensures var after := HoldOff(backoffs, addr, now);
            && HeldOff(after, addr, now)
            && (HeldOff(backoffs, other, now) ==> HeldOff(after, other, now))
            && (other != addr ==> (other in after <==> other in backoffs) && (other in after ==> after[other] == backoffs[other]))
            && (addr != "" && addr in backoffs && backoffs[addr].delayMs > 10000 ==> after[addr].delayMs == backoffs[addr].delayMs)
            && (addr != "" && addr in backoffs && backoffs[addr].attempt > 1 ==> after[addr].attempt == backoffs[addr].attempt)
            && (addr != "" && (addr !in backoffs || backoffs[addr].delayMs <= 10000) ==> after[addr].delayMs == 10000)
            && (addr != "" && (addr !in backoffs || backoffs[addr].attempt <= 1) ==> after[addr].attempt == 1)
            && ("" in after <==> "" in backoffs)
  {
  }

  lemma InWithout(cs: seq<Conn>, d: nat, c: Conn)
    requires d < |cs|
    ensures c in cs <==> c == cs[d] || c in Without(cs, d)
  {
    assert cs == cs[..d] + [cs[d]] + cs[d + 1..];
  }

  /** Without position d, d's session has lost its viewer unless another link replaces d. */
  lemma AttachedWithout(cs: seq<Conn>, d: nat, session: nat, key: string)
    requires d < |cs| && cs[d].open
    ensures var here := AttachedAt(cs, d, session, key);
            && (Attached(cs, session, key) <==> Attached(Without(cs, d), session, key) || here)
            && (here ==> (HasReplacement(cs, d) <==> Attached(Without(cs, d), session, key)))
  {
    var rs := Without(cs, d);
    if j :| 0 <= j < |rs| && AttachedAt(rs, j, session, key) {
      assert AttachedAt(cs, Before(d, j), session, key);
      if AttachedAt(cs, d, session, key) { assert Replaces(cs[Before(d, j)], cs[d]); }
    }
    if j :| 0 <= j < |cs| && j != d && AttachedAt(cs, j, session, key) {
      assert AttachedAt(rs, if j < d then j else j - 1, session, key);
    }
    if AttachedAt(cs, d, session, key) && HasReplacement(cs, d) {
      var j :| 0 <= j < |cs| && j != d && Replaces(cs[j], cs[d]);
      assert AttachedAt(cs, j, session, key);
    }
  }

  lemma DetachesHere(cs: seq<Conn>, d: nat, session: nat, key: string)
    requires d < |cs| && cs[d].open
    ensures Detached(Detaches(cs, d), session, key) <==> AttachedAt(cs, d, session, key) && !HasReplacement(cs, d)
  {
    hide HasReplacement;
    if AttachedAt(cs, d, session, key) && !HasReplacement(cs, d) {
      assert Detach(session, cs[d].attached.id, key) in Detaches(cs, d);
    }
  }

  lemma DetachedAppend(a: seq<Detach>, b: seq<Detach>, session: nat, key: string)
    ensures Detached(a + b, session, key) <==> Detached(a, session, key) || Detached(b, session, key)
  {
    if d :| d in a && d.session == session && d.peerPubkey == key { assert d in a + b; }
    if d :| d in b && d.session == session && d.peerPubkey == key { assert d in a + b; }
  }

  lemma DropKeepsLedger(before: seq<Conn>, cs: seq<Conn>, d: nat, calls: seq<Detach>)
    requires Ledger(before, cs, calls) && d < |cs| && cs[d].open
    ensures Ledger(before, Without(cs, d), calls + Detaches(cs, d))
  {
    hide Attached, Detached, Detaches, HasReplacement, AttachedAt, Without;
    forall session, key
      ensures var (still, gone) := (Attached(Without(cs, d), session, key), Detached(calls + Detaches(cs, d), session, key));
              (Attached(before, session, key) <==> still || gone) && !(still && gone)
    {
      AttachedWithout(cs, d, session, key);
      DetachesHere(cs, d, session, key);
      DetachedAppend(calls, Detaches(cs, d), session, key);
    }
  }

  lemma BusyStays(our: string, before: seq<Conn>, cs: seq<Conn>, d: nat, calls: seq<Detach>,
                  backoffs: map<string, Backoff>, now: int)
    requires Follows(our, before, cs, calls, backoffs, now) && d < |cs| && !Survives(our, cs, d) && cs[d].execBusy
    ensures var marked := cs[d := cs[d].(closeRequested := true)];
            Kept(our, marked) == Kept(our, before) && Ledger(before, marked, calls)
    ensures exists k :: 0 <= k < |before| && !Survives(our, before, k) && before[k].execBusy
  {
    hide Kept, Survives, HeldOff, Ledger;
    MarkLoser(our, cs, d);
    assert !LosersIdle(our, before);
    MarkKeepsLedger(before, cs, d, calls);
  }

  lemma MarkKeepsLedger(before: seq<Conn>, cs: seq<Conn>, d: nat, calls: seq<Detach>)
    requires Ledger(before, cs, calls) && d < |cs|
    ensures Ledger(before, cs[d := cs[d].(closeRequested := true)], calls)
  {
    hide Detached;
    var marked := cs[d := cs[d].(closeRequested := true)];
    forall session, key ensures Attached(marked, session, key) == Attached(cs, session, key) {
      forall j | 0 <= j < |cs| ensures AttachedAt(marked, j, session, key) == AttachedAt(cs, j, session, key) {
      }
    }
    hide Attached;
  }

  lemma FollowsToTheEnd(our: string, before: seq<Conn>, cs: seq<Conn>, calls: seq<Detach>,
                        backoffs: map<string, Backoff>, now: int)
    requires Follows(our, before, cs, calls, backoffs, now) && NoRivals(cs)
    ensures cs == Kept(our, before) == Kept(our, cs) && Ledger(before, cs, calls)
    ensures forall c :: c in before ==> c in cs || HeldOff(backoffs, c.peerAddr, now)
  {
    hide Kept, HeldOff, Ledger, NoRivals, LosersIdle;
    AllKept(our, cs);
  }

  predicate NoRivals(cs: seq<Conn>) {
    forall i, j :: 0 <= i < j < |cs| ==> !Rivals(cs[i], cs[j])
  }

  /** No connection that has to go is busy. */
  ghost predicate LosersIdle(our: string, cs: seq<Conn>) {
    forall k :: 0 <= k < |cs| && !Survives(our, cs, k) ==> !cs[k].execBusy
  }

  lemma RivalsAreEqualOnKeys(a: Conn, b: Conn, c: Conn)
    requires Rivals(a, b)
    ensures Rivals(b, a) && (Rivals(a, c) <==> Rivals(b, c))
  {
  }

  /** Of a pair of duplicates, the one the source drops does not survive. */
  lemma LoserOfPair(our: string, cs: seq<Conn>, i: nat, j: nat)
    requires i < j < |cs| && Rivals(cs[i], cs[j])
    ensures !Survives(our, cs, if Wanted(our, cs[i]) && !Wanted(our, cs[j]) then j else i)
    ensures Wanted(our, cs[j]) == (cs[j].isOutbound == Less(our, cs[i].peerPubkey))
  {
    hide Less;
    RivalsAreEqualOnKeys(cs[i], cs[j], cs[i]);
    if Wanted(our, cs[i]) && !Wanted(our, cs[j]) {
      assert WantedRival(our, cs, j, i);
    } else {
      assert Newer(cs, i, j);
      if Wanted(our, cs[i]) { assert WantedRival(our, cs, i, j); }
    }
  }

  /** Where position k of the list without d was before. */
  function Before(d: nat, k: nat): nat { if k < d then k else k + 1 }

  lemma RivalsWithout(our: string, cs: seq<Conn>, d: nat, k: nat, j: nat)
    requires d < |cs| && k < |cs| - 1 && j < |cs| - 1
    ensures Newer(Without(cs, d), k, j) <==> Newer(cs, Before(d, k), Before(d, j))
    ensures WantedRival(our, Without(cs, d), k, j) <==> WantedRival(our, cs, Before(d, k), Before(d, j))
  {
    hide Rivals, Wanted;
  }

  /** What d's rivals have over it, they have without it. */
  lemma HasWithout(our: string, cs: seq<Conn>, d: nat, k: nat, j: nat)
    requires d < |cs| && k < |cs| - 1 && j < |cs| && j != d
    ensures var rs := Without(cs, d);
            && (Newer(cs, Before(d, k), j) ==> HasNewer(rs, k))
            && (WantedRival(our, cs, Before(d, k), j) ==> HasWanted(our, rs, k))
            && (Newer(cs, Before(d, k), j) && WantedRival(our, cs, Before(d, k), j) ==> HasNewerWanted(our, rs, k))
  {
    hide Rivals, Wanted;
    RivalsWithout(our, cs, d, k, if j < d then j else j - 1);
  }

  lemma LessWithout(our: string, cs: seq<Conn>, d: nat, k: nat)
    requires d < |cs| && k < |cs| - 1
    ensures var (rs, b) := (Without(cs, d), Before(d, k));
            && (HasNewer(rs, k) ==> HasNewer(cs, b))
            && (HasWanted(our, rs, k) ==> HasWanted(our, cs, b))
            && (HasNewerWanted(our, rs, k) ==> HasNewerWanted(our, cs, b))
  {
    hide Rivals, Wanted;
    var rs := Without(cs, d);
    if j :| Newer(rs, k, j) { RivalsWithout(our, cs, d, k, j); }
    if j :| WantedRival(our, rs, k, j) { RivalsWithout(our, cs, d, k, j); }
    if j :| Newer(rs, k, j) && WantedRival(our, rs, k, j) { RivalsWithout(our, cs, d, k, j); }
  }

  /** A loser that beats position b is itself beaten by one that beats b too. */
  lemma BeatenBeater(our: string, cs: seq<Conn>, d: nat, b: nat) returns (j: nat)
    requires d < |cs| && b < |cs| && b != d && !Survives(our, cs, d) && Rivals(cs[b], cs[d])
    ensures j < |cs| && j != d
    ensures Wanted(our, cs[d]) ==> WantedRival(our, cs, b, j) && (b < d ==> Newer(cs, b, j))
    ensures !Wanted(our, cs[d]) ==> WantedRival(our, cs, b, j) || (b < d ==> Newer(cs, b, j))
  {
    hide Wanted;
    if Wanted(our, cs[d]) {
      var j' :| Newer(cs, d, j') && WantedRival(our, cs, d, j');
      j := j';
    } else if HasWanted(our, cs, d) {
      var j' :| WantedRival(our, cs, d, j');
      j := j';
    } else {
      var j' :| Newer(cs, d, j');
      j := j';
    }
    RivalsAreEqualOnKeys(cs[d], cs[j], cs[b]);
  }

  /** Losers do not matter to the others. */
  lemma SurvivesWithout(our: string, cs: seq<Conn>, d: nat, k: nat)
    requires d < |cs| && !Survives(our, cs, d) && k < |cs| - 1
    ensures Survives(our, Without(cs, d), k) == Survives(our, cs, Before(d, k))
  {
    hide Rivals, Wanted;
    var b, rs := Before(d, k), Without(cs, d);
    LessWithout(our, cs, d, k);
    if !Survives(our, cs, b) {
      if Wanted(our, cs[b]) {
        var j :| Newer(cs, b, j) && WantedRival(our, cs, b, j);
        BeatenStays(our, cs, d, k, j);
      } else if HasWanted(our, cs, b) {
        var j :| WantedRival(our, cs, b, j);
        BeatenStays(our, cs, d, k, j);
      } else {
        var j :| Newer(cs, b, j);
        BeatenStays(our, cs, d, k, j);
      }
    }
  }

  lemma BeatenStays(our: string, cs: seq<Conn>, d: nat, k: nat, j: nat)
    requires d < |cs| && !Survives(our, cs, d) && k < |cs| - 1 && j < |cs|
    requires Newer(cs, Before(d, k), j) || WantedRival(our, cs, Before(d, k), j)
    ensures Newer(cs, Before(d, k), j) && WantedRival(our, cs, Before(d, k), j) ==> HasNewerWanted(our, Without(cs, d), k)
    ensures HasWanted(our, Without(cs, d), k) || HasNewer(Without(cs, d), k)
  {
    hide Rivals, Wanted, HasNewer, HasWanted, HasNewerWanted, Survives;
    var j' := j;
    if j == d { j' := BeatenBeater(our, cs, d, Before(d, k)); }
    HasWithout(our, cs, d, k, j');
  }

  /** Dropping a loser changes nothing about who is kept. */
  lemma {:induction false} KeptFromWithout(our: string, cs: seq<Conn>, d: nat, k: nat)
    requires d < |cs| && !Survives(our, cs, d) && k <= |cs| - 1
    ensures KeptFrom(our, Without(cs, d), k) == KeptFrom(our, cs, Before(d, k))
    ensures k == d ==> KeptFrom(our, cs, d) == KeptFrom(our, cs, d + 1)
    decreases |cs| - k
  {
    hide Survives;
    if k < |cs| - 1 {
      SurvivesWithout(our, cs, d, k);
      KeptFromWithout(our, cs, d, k + 1);
    }
    if k + 1 == d {
      assert KeptFrom(our, cs, d) == [] + KeptFrom(our, cs, d + 1);
    }
  }

  lemma DropLoser(our: string, cs: seq<Conn>, d: nat)
    requires d < |cs| && !Survives(our, cs, d)
    ensures Kept(our, Without(cs, d)) == Kept(our, cs)
  {
    hide Survives;
    KeptFromWithout(our, cs, d, 0);
    if d == 0 { assert KeptFrom(our, cs, 0) == [] + KeptFrom(our, cs, 1); }
  }

  lemma DropKeepsIdle(our: string, cs: seq<Conn>, d: nat)
    requires d < |cs| && !Survives(our, cs, d)
    ensures LosersIdle(our, cs) ==> LosersIdle(our, Without(cs, d))
  {
    hide Survives;
    forall k: nat | k < |cs| - 1 ensures Survives(our, Without(cs, d), k) == Survives(our, cs, Before(d, k)) {
      SurvivesWithout(our, cs, d, k);
    }
  }

  /** Marking a loser for a later close changes nothing either. */
  lemma MarkLoser(our: string, cs: seq<Conn>, d: nat)
    requires d < |cs| && !Survives(our, cs, d)
    ensures Kept(our, cs[d := cs[d].(closeRequested := true)]) == Kept(our, cs)
  {
    hide Survives;
    KeptFromMarked(our, cs, d, 0);
  }

  lemma SurvivesMarked(our: string, cs: seq<Conn>, d: nat, k: nat)
    requires d < |cs| && k < |cs|
    ensures Survives(our, cs[d := cs[d].(closeRequested := true)], k) == Survives(our, cs, k)
  {
    hide Less;
    var rs := cs[d := cs[d].(closeRequested := true)];
    assert forall j :: Newer(rs, k, j) <==> Newer(cs, k, j);
    assert forall j :: WantedRival(our, rs, k, j) <==> WantedRival(our, cs, k, j);
  }

  lemma {:induction false} KeptFromMarked(our: string, cs: seq<Conn>, d: nat, k: nat)
    requires d < |cs| && !Survives(our, cs, d) && k <= |cs|
    ensures KeptFrom(our, cs[d := cs[d].(closeRequested := true)], k) == KeptFrom(our, cs, k)
    decreases |cs| - k
  {
    hide Survives;
    if k < |cs| {
      SurvivesMarked(our, cs, d, k);
      KeptFromMarked(our, cs, d, k + 1);
    }
  }

  /** Without rivals everyone is kept. */
  lemma AllKept(our: string, cs: seq<Conn>)
    requires NoRivals(cs)
    ensures Kept(our, cs) == cs
  {
    AllKeptFrom(our, cs, 0);
    assert cs[0..] == cs;
  }

  lemma {:induction false} AllKeptFrom(our: string, cs: seq<Conn>, k: nat)
    requires NoRivals(cs) && k <= |cs|
    ensures KeptFrom(our, cs, k) == cs[k..]
    decreases |cs| - k
  {
    hide Survives, NoRivals;
    if k < |cs| {
      SelfOnly(our, cs, k);
      AllKeptFrom(our, cs, k + 1);
      assert cs[k..] == [cs[k]] + cs[k + 1..];
    }
  }

  lemma SelfOnly(our: string, cs: seq<Conn>, k: nat)
    requires NoRivals(cs) && k < |cs|
    ensures Survives(our, cs, k)
  {
    hide Less;
    forall j | WantedRival(our, cs, k, j) ensures j == k {
      if j < k { RivalsAreEqualOnKeys(cs[k], cs[j], cs[k]); }
    }
  }

  // ── What that means for the list ──────────────────────────────────────────────

  /** Two connections to the same peer cannot both be kept. */
  lemma OneSurvivor(our: string, cs: seq<Conn>, k: nat, m: nat)
    requires k < m < |cs| && Survives(our, cs, k) && Survives(our, cs, m)
    ensures !Rivals(cs[k], cs[m])
  {
    hide Survives;
    if Rivals(cs[k], cs[m]) { LoserOfPair(our, cs, k, m); }
  }

  /** Someone is kept for every peer that has an open mesh link. */
  lemma {:induction false} SomeSurvivor(our: string, cs: seq<Conn>, k: nat) returns (w: nat)
    requires k < |cs| && Rivals(cs[k], cs[k])
    ensures w < |cs| && Survives(our, cs, w) && Rivals(cs[k], cs[w])
    decreases if Wanted(our, cs[k]) then 0 else 1, |cs| - k
  {
    hide Less;
    if Survives(our, cs, k) {
      w := k;
    } else {
      var j: nat;
      if Wanted(our, cs[k]) {
        var j' :| Newer(cs, k, j') && WantedRival(our, cs, k, j');
        j := j';
      } else if HasWanted(our, cs, k) {
        var j' :| WantedRival(our, cs, k, j');
        j := j';
      } else {
        var j' :| Newer(cs, k, j');
        j := j';
      }
      RivalsAreEqualOnKeys(cs[k], cs[j], cs[j]);
      w := SomeSurvivor(our, cs, j);
      RivalsAreEqualOnKeys(cs[k], cs[j], cs[w]);
    }
  }

  /** Links of other kinds, closed ones and those without a key are never touched. */
  lemma OthersSurvive(our: string, cs: seq<Conn>, k: nat)
    requires k < |cs| && (!cs[k].open || !cs[k].isMesh || cs[k].peerPubkey == "")
    ensures Survives(our, cs, k) && cs[k] in Kept(our, cs)
  {
    hide Less;
    SurvivorIsKept(our, cs, 0, k);
  }

  /** Which open mesh links are kept: of those that the smaller key opened the newest, and only if there are
      none, the newest of the others. */
  lemma SurvivesIff(our: string, cs: seq<Conn>, k: nat)
    requires k < |cs| && cs[k].open && cs[k].isMesh && cs[k].peerPubkey != ""
    ensures Survives(our, cs, k) <==>
              forall j :: 0 <= j < |cs| && j != k && cs[j].open && cs[j].isMesh && cs[j].peerPubkey == cs[k].peerPubkey ==>
                if cs[k].isOutbound == Less(our, cs[k].peerPubkey)
                then j < k || cs[j].isOutbound != Less(our, cs[k].peerPubkey)
                else j < k && cs[j].isOutbound != Less(our, cs[k].peerPubkey)
  {
    hide Less;
    forall j | 0 <= j < |cs|
      ensures Newer(cs, k, j) <==> k < j && cs[j].open && cs[j].isMesh && cs[j].peerPubkey == cs[k].peerPubkey
      ensures WantedRival(our, cs, k, j) <==> cs[j].open && cs[j].isMesh && cs[j].peerPubkey == cs[k].peerPubkey
                                              && cs[j].isOutbound == Less(our, cs[k].peerPubkey)
    {
    }
  }

  lemma {:induction false} KeptComesFrom(our: string, cs: seq<Conn>, k: nat, x: nat) returns (m: nat)
    requires k <= |cs| && x < |KeptFrom(our, cs, k)|
    ensures k <= m < |cs| && Survives(our, cs, m) && KeptFrom(our, cs, k)[x] == cs[m]
    decreases |cs| - k
  {
    hide Survives;
    if Survives(our, cs, k) {
      if x == 0 { m := k; } else { m := KeptComesFrom(our, cs, k + 1, x - 1); }
    } else {
      m := KeptComesFrom(our, cs, k + 1, x);
    }
  }

  lemma ConsNoRivals(c: Conn, cs: seq<Conn>)
    requires NoRivals(cs) && forall y :: 0 <= y < |cs| ==> !Rivals(c, cs[y])
    ensures NoRivals([c] + cs)
  {
    hide Rivals;
    var r := [c] + cs;
    assert forall x :: 0 < x < |r| ==> r[x] == cs[x - 1];
  }

  lemma {:induction false} KeptFromHasNoRivals(our: string, cs: seq<Conn>, k: nat)
    requires k <= |cs|
    ensures NoRivals(KeptFrom(our, cs, k))
    decreases |cs| - k
  {
    hide Survives, Rivals;
    if k < |cs| {
      KeptFromHasNoRivals(our, cs, k + 1);
      var t := KeptFrom(our, cs, k + 1);
      if Survives(our, cs, k) {
        forall y | 0 <= y < |t| ensures !Rivals(cs[k], t[y]) {
          var m := KeptComesFrom(our, cs, k + 1, y);
          OneSurvivor(our, cs, k, m);
        }
        ConsNoRivals(cs[k], t);
      } else {
        assert KeptFrom(our, cs, k) == t;
      }
    }
  }

  /** A finished resolution leaves at most one open mesh link per known key. */
  lemma KeptHasNoRivals(our: string, cs: seq<Conn>, key: string, i: nat, j: nat)
    requires key != "" && i < j < |Kept(our, cs)|
    requires Kept(our, cs)[i].open && Kept(our, cs)[i].isMesh && Kept(our, cs)[i].peerPubkey == key
    requires Kept(our, cs)[j].open && Kept(our, cs)[j].isMesh
    ensures Kept(our, cs)[j].peerPubkey != key
  {
    KeptFromHasNoRivals(our, cs, 0);
  }

  /** And at least one: the peer of every open mesh link is still reachable. */
  lemma {:induction false} KeptReachesEveryPeer(our: string, cs: seq<Conn>, k: nat)
    requires k < |cs| && cs[k].open && cs[k].isMesh && cs[k].peerPubkey != ""
    ensures exists c :: c in Kept(our, cs) && c.open && c.isMesh && c.peerPubkey == cs[k].peerPubkey
  {
    var w := SomeSurvivor(our, cs, k);
    SurvivorIsKept(our, cs, 0, w);
  }

  lemma {:induction false} SurvivorIsKept(our: string, cs: seq<Conn>, k: nat, w: nat)
    requires k <= w < |cs| && Survives(our, cs, w)
    ensures cs[w] in KeptFrom(our, cs, k)
    decreases w - k
  {
    hide Survives;
    if k < w { SurvivorIsKept(our, cs, k + 1, w); }
  }

  /** Seen from its two ends a link has opposite directions and the keys are swapped; both ends want
      the same thing of it. */
  lemma BothEndsWantTheSame(keyA: string, keyB: string, atA: Conn, atB: Conn)
    requires keyA != keyB
    requires atA.peerPubkey == keyB && atB.peerPubkey == keyA && atA.isOutbound == !atB.isOutbound
    ensures Wanted(keyA, atA) == Wanted(keyB, atB)
    ensures Wanted(keyA, atA) <==> (atA.isOutbound <==> Less(keyA, keyB))
  {
    LessIsTotal(keyA, keyB);
  }
}
