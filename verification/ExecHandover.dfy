/** The hand-over of a connection from the event loop to a worker through exec_busy
    (bs-mesh-support.h, bs-mesh-conn.h, bs-mesh-cli.h), as steps of the two kinds of thread. */
module ExecHandover {

  /** kMaxQueuedTasks. */
  const MAX_QUEUED: nat := 64

  datatype Task = Task(id: nat, conn: nat)

  /** Where a worker is in worker_loop. Announced: the handler itself has set exec_completed.
      letGo: the handler itself has also cleared exec_busy. */
  datatype Stage = Waiting | Popped | Running | Announced | Returned(letGo: bool) | Marked(letGo: bool) | Cleared | Exited

  datatype Worker = Worker(stage: Stage, task: Task)

  /** Where the event loop is: between two actions, past the busy check of a connection that it is
      going to read, write or close, or on its way through a hand-off. */
  datatype Loop = Free | Using(conn: nat) | Claimed(conn: nat) | Built(task: Task) | Rejecting(task: Task)

  datatype Conns = Conns(known: set<nat>, present: set<nat>, live: set<nat>, closeRequested: set<nat>)

  /** exec_busy, exec_completed and heartbeat_suspended_for_busy of every connection; and which
      connections were claimed since their last_pong was last refreshed. */
  datatype Flags = Flags(busy: set<nat>, completed: set<nat>, suspended: set<nat>, claimedSince: set<nat>)

  datatype Pool = Pool(queue: seq<Task>, workers: seq<Worker>, shutdown: bool)

  /** Every task ever built, those refused, those done with; the exec_cancelled flags and whose flag a
      connection points at. */
  datatype Books = Books(built: seq<Task>, rejected: seq<Task>, finished: seq<Task>, ran: set<nat>,
                         cancelled: set<nat>, current: map<nat, nat>)

  datatype State = State(conns: Conns, flags: Flags, pool: Pool, loop: Loop, books: Books)

  function Init(workers: nat): State {
    State(Conns({}, {}, {}, {}), Flags({}, {}, {}, {}),
          Pool([], seq(workers, _ => Worker(Waiting, Task(0, 0))), false), Free, Books([], [], [], {}, {}, map[]))
  }

  datatype Step =
    | Accept(conn: nat)
    | Use(conn: nat)
    | UseDone
    | CloseUsed
    | DeferClose(conn: nat)
    | Erase(conn: nat)
    | Heartbeat(conn: nat)
    | Cancel(conn: nat)
    | Claim(conn: nat)
    | Build
    | Enqueue
    | FinishReject
    | Shutdown
    | Pop(w: nat)
    | Exit(w: nat)
    | Start(w: nat)
    | Return(w: nat)
    | Throw(w: nat)
    | Announce(w: nat)
    | LetGo(w: nat)
    | Mark(w: nat)
    | Clear(w: nat)
    | CloseIpc(w: nat)

  predicate At(s: State, w: nat, stage: Stage) {
    w < |s.pool.workers| && s.pool.workers[w].stage == stage
  }

  /** releases: the handler clears the flags on its own, as execute_long_operation_task does. What changes
      nothing is no step: passing over a busy connection, or a claim whose exchange finds the flag set. */
  predicate Enabled(releases: bool, s: State, step: Step) {
    match step
    case Accept(c) => s.loop.Free? && c !in s.conns.known
    case Use(c) => s.loop.Free? && c in s.conns.present && c in s.conns.live && c !in s.flags.busy
    case UseDone => s.loop.Using?
    case CloseUsed => s.loop.Using?
    case DeferClose(c) => s.loop.Free? && c in s.conns.present && c in s.flags.busy
    case Erase(c) => s.loop.Free? && c in s.conns.present && c !in s.conns.live
    case Heartbeat(c) => s.loop.Free? && c in s.conns.present
    case Cancel(c) => s.loop.Free? && c in s.conns.present && c in s.books.current
    case Claim(c) =>
      (s.loop.Free? || s.loop == Using(c)) && c in s.conns.present && c in s.conns.live && c !in s.flags.busy
    case Build => s.loop.Claimed?
    case Enqueue => s.loop.Built?
    case FinishReject => s.loop.Rejecting?
    case Shutdown => true
    case Pop(w) => At(s, w, Waiting) && s.pool.queue != []
    case Exit(w) => At(s, w, Waiting) && s.pool.shutdown && s.pool.queue == []
    case Start(w) => At(s, w, Popped)
    case Return(w) => At(s, w, Running) && !releases
    case Throw(w) => At(s, w, Running)
    case Announce(w) => At(s, w, Running) && releases
    case LetGo(w) => At(s, w, Announced)
    case Mark(w) => At(s, w, Returned(false)) || At(s, w, Returned(true))
    case Clear(w) => At(s, w, Marked(false)) || At(s, w, Marked(true))
    case CloseIpc(w) => At(s, w, Cleared)
  }

  function Moved(pool: Pool, w: nat, stage: Stage): Pool
    requires w < |pool.workers|
  {
    pool.(workers := pool.workers[w := pool.workers[w].(stage := stage)])
  }

  function Do(releases: bool, s: State, step: Step): State
    requires Enabled(releases, s, step)
  {
    match step
    case Accept(c) =>
      s.(conns := s.conns.(known := s.conns.known + {c}, present := s.conns.present + {c}, live := s.conns.live + {c}))
    case Use(c) => s.(loop := Using(c))
    case UseDone => s.(loop := Free)
    case CloseUsed =>
      s.(loop := Free, conns := s.conns.(live := s.conns.live - {s.loop.conn},
                                         closeRequested := s.conns.closeRequested - {s.loop.conn}))
    case DeferClose(c) => s.(conns := s.conns.(closeRequested := s.conns.closeRequested + {c}))
    case Erase(c) => s.(conns := s.conns.(present := s.conns.present - {c}))
    case Heartbeat(c) => s.(flags := RefreshHeartbeat(s.flags, c).0)
    case Cancel(c) => s.(books := s.books.(cancelled := s.books.cancelled + {s.books.current[c]}))
    case Claim(c) =>
      s.(loop := Claimed(c),
         flags := s.flags.(busy := s.flags.busy + {c}, claimedSince := s.flags.claimedSince + {c}))
    case Build =>
      var task := Task(|s.books.built|, s.loop.conn);
      s.(loop := Built(task), flags := s.flags.(completed := s.flags.completed - {task.conn}),
         books := s.books.(built := s.books.built + [task], current := s.books.current[task.conn := task.id]))
    case Enqueue =>
      if s.pool.shutdown || |s.pool.queue| >= MAX_QUEUED then
        s.(loop := Rejecting(s.loop.task), flags := s.flags.(completed := s.flags.completed + {s.loop.task.conn}))
      else
        s.(loop := Free, pool := s.pool.(queue := s.pool.queue + [s.loop.task]))
    case FinishReject =>
      s.(loop := Free, flags := s.flags.(busy := s.flags.busy - {s.loop.task.conn}),
         books := s.books.(rejected := s.books.rejected + [s.loop.task]))
    case Shutdown => s.(pool := s.pool.(shutdown := true))
    case Pop(w) =>
      s.(pool := Pool(s.pool.queue[1..], s.pool.workers[w := Worker(Popped, s.pool.queue[0])], s.pool.shutdown))
    case Exit(w) => s.(pool := Moved(s.pool, w, Exited))
    case Start(w) =>
      if s.pool.workers[w].task.id in s.books.cancelled then s.(pool := Moved(s.pool, w, Returned(false)))
      else s.(pool := Moved(s.pool, w, Running), books := s.books.(ran := s.books.ran + {s.pool.workers[w].task.id}))
    case Return(w) => s.(pool := Moved(s.pool, w, Returned(false)))
    case Throw(w) => s.(pool := Moved(s.pool, w, Returned(false)))
    case Announce(w) =>
      s.(pool := Moved(s.pool, w, Announced),
         flags := s.flags.(completed := s.flags.completed + {s.pool.workers[w].task.conn}))
    case LetGo(w) =>
      s.(pool := Moved(s.pool, w, Returned(true)),
         flags := s.flags.(busy := s.flags.busy - {s.pool.workers[w].task.conn}))
    case Mark(w) =>
      s.(pool := Moved(s.pool, w, Marked(s.pool.workers[w].stage.letGo)),
         flags := s.flags.(completed := s.flags.completed + {s.pool.workers[w].task.conn}))
    case Clear(w) =>
      s.(pool := Moved(s.pool, w, Cleared),
         flags := s.flags.(busy := s.flags.busy - {s.pool.workers[w].task.conn}))
    case CloseIpc(w) =>
      s.(pool := Moved(s.pool, w, Waiting), books := s.books.(finished := s.books.finished + [s.pool.workers[w].task]))
  }

  /** refresh_heartbeat_after_busy; the result says whether last_pong is safe from judgement now. */
  function RefreshHeartbeat(f: Flags, c: nat): (Flags, bool) {
    if c in f.busy then (f.(suspended := f.suspended + {c}), true)
    else if c in f.completed || c in f.suspended then
      (f.(completed := f.completed - {c}, suspended := f.suspended - {c}, claimedSince := f.claimedSince - {c}), true)
    else (f, false)
  }

  // ── Who holds what ────────────────────────────────────────────────────────────

  ghost function Count<A>(xs: seq<A>, p: A -> bool): nat {
    if xs == [] then 0 else (if p(xs[0]) then 1 else 0) + Count(xs[1..], p)
  }

  lemma {:induction false} CountAppend<A>(xs: seq<A>, x: A, p: A -> bool)
    ensures Count(xs + [x], p) == Count(xs, p) + (if p(x) then 1 else 0)
  {
    if xs == [] {
      assert xs + [x] == [x];
    } else {
      assert (xs + [x])[1..] == xs[1..] + [x];
      CountAppend(xs[1..], x, p);
    }
  }

  lemma {:induction false} CountUpdate<A>(xs: seq<A>, i: nat, x: A, p: A -> bool)
    requires i < |xs|
    ensures Count(xs[i := x], p) + (if p(xs[i]) then 1 else 0) == Count(xs, p) + (if p(x) then 1 else 0)
  {
    if i == 0 {
      assert xs[i := x][1..] == xs[1..];
    } else {
      assert xs[i := x][1..] == xs[1..][i - 1 := x];
      CountUpdate(xs[1..], i - 1, x, p);
    }
  }

  lemma {:induction false} CountHas<A>(xs: seq<A>, i: nat, p: A -> bool)
    requires i < |xs| && p(xs[i])
    ensures Count(xs, p) >= 1
  {
    if i > 0 { CountHas(xs[1..], i - 1, p); }
  }

  lemma {:induction false} CountFinds<A>(xs: seq<A>, p: A -> bool) returns (i: nat)
    requires Count(xs, p) >= 1
    ensures i < |xs| && p(xs[i])
  {
    if p(xs[0]) {
      i := 0;
    } else {
      i := CountFinds(xs[1..], p);
      i := i + 1;
    }
  }

  /** The stages in which a worker may use the connection of its task. */
  predicate Owning(stage: Stage) {
    stage.Popped? || stage.Running? || stage.Announced? || stage == Returned(false) || stage == Marked(false)
  }

  /** The stages after the handler has given the connection back and before worker_loop does so again. */
  predicate Stale(stage: Stage) {
    stage == Returned(true) || stage == Marked(true)
  }

  predicate Carrying(stage: Stage) {
    !stage.Waiting? && !stage.Exited?
  }

  function OnConn(c: nat): Task -> bool { (t: Task) => t.conn == c }

  function HoldsConn(c: nat): Worker -> bool { (w: Worker) => Owning(w.stage) && w.task.conn == c }

  function Is(task: Task): Task -> bool { (t: Task) => t == task }

  function Carries(task: Task): Worker -> bool { (w: Worker) => Carrying(w.stage) && w.task == task }

  /** The hand-off in progress, if it is one of c. */
  predicate LoopHolds(loop: Loop, c: nat) {
    match loop
    case Free => false
    case Using(_) => false
    case Claimed(d) => d == c
    case Built(t) => t.conn == c
    case Rejecting(t) => t.conn == c
  }

  predicate LoopCarries(loop: Loop, task: Task) {
    loop == Built(task) || loop == Rejecting(task)
  }

  /** How many hold connection c: the hand-off, queued tasks and workers. */
  ghost function Holders(s: State, c: nat): nat {
    (if LoopHolds(s.loop, c) then 1 else 0) + Count(s.pool.queue, OnConn(c)) + Count(s.pool.workers, HoldsConn(c))
  }

  /** In how many places a task is, refused and finished ones included. */
  ghost function Places(s: State, t: Task): nat {
    (if LoopCarries(s.loop, t) then 1 else 0) + Count(s.pool.queue, Is(t)) + Count(s.pool.workers, Carries(t))
    + Count(s.books.rejected, Is(t)) + Count(s.books.finished, Is(t))
  }

  // ── The invariant ─────────────────────────────────────────────────────────────

  /** exec_busy is set exactly for the held connections, and each has one holder. */
  ghost predicate OneOwner(s: State) {
    forall c :: Holders(s, c) == if c in s.flags.busy then 1 else 0
  }

  ghost predicate BusyIsLive(s: State) {
    && s.flags.busy <= s.conns.live <= s.conns.present <= s.conns.known && s.conns.closeRequested <= s.conns.live
    && (s.loop.Using? ==> s.loop.conn in s.conns.live && s.loop.conn !in s.flags.busy)
  }

  /** Whoever is next to clear exec_busy has set exec_completed. */
  ghost predicate CompletedFirst(s: State) {
    && (s.loop.Rejecting? ==> s.loop.task.conn in s.flags.completed)
    && (forall w: nat :: At(s, w, Announced) || At(s, w, Marked(false)) ==> s.pool.workers[w].task.conn in s.flags.completed)
  }

  ghost predicate StaleIsIdle(s: State) {
    forall w: nat :: At(s, w, Returned(true)) || At(s, w, Marked(true)) ==> s.pool.workers[w].task.conn !in s.flags.busy
  }

  ghost predicate QueueBounded(s: State) {
    && |s.pool.queue| <= 64
    && (forall w: nat :: At(s, w, Exited) ==> s.pool.shutdown && s.pool.queue == [])
  }

  /** Every task built is in one place, and nothing else is anywhere. */
  ghost predicate AllAccounted(s: State) {
    && (forall t :: Places(s, t) == if t in s.books.built then 1 else 0)
    && (forall i :: 0 <= i < |s.books.built| ==> s.books.built[i].id == i)
  }

  /** A connection that was claimed has something that makes the next heartbeat check refresh it. */
  ghost predicate HeartbeatOwed(s: State) {
    s.flags.busy <= s.flags.claimedSince <= s.flags.busy + s.flags.completed + s.flags.suspended
  }

  ghost predicate Inv(s: State) {
    OneOwner(s) && BusyIsLive(s) && CompletedFirst(s) && StaleIsIdle(s) && QueueBounded(s) && AllAccounted(s)
    && HeartbeatOwed(s)
  }

  /** A claim of a connection that some worker has given back in its handler but not in its loop. */
  ghost predicate Early(s: State, step: Step) {
    step.Claim? && exists w :: 0 <= w < |s.pool.workers| && Stale(s.pool.workers[w].stage)
                               && s.pool.workers[w].task.conn == step.conn
  }

  // ── What a step changes ───────────────────────────────────────────────────────

  predicate WorkerMove(step: Step) {
    step.Exit? || step.Start? || step.Return? || step.Throw? || step.Announce? || step.LetGo? || step.Mark?
    || step.Clear? || step.CloseIpc?
  }

  /** The stage that a worker's own step leads to. */
  function NextStage(s: State, step: Step): Stage
    requires WorkerMove(step) && step.w < |s.pool.workers|
  {
    match step
    case Exit(_) => Exited
    case Start(w) => if s.pool.workers[w].task.id in s.books.cancelled then Returned(false) else Running
    case Announce(_) => Announced
    case LetGo(_) => Returned(true)
    case Mark(w) => if s.pool.workers[w].stage == Returned(true) then Marked(true) else Marked(false)
    case Clear(_) => Cleared
    case CloseIpc(_) => Waiting
    case _ => Returned(false)
  }

  /** Everything about a worker's step but its log entries. */
  lemma WorkerMoves(releases: bool, s: State, step: Step)
    requires Enabled(releases, s, step) && WorkerMove(step)
    ensures step.w < |s.pool.workers|
    ensures var (t, c) := (Do(releases, s, step), s.pool.workers[step.w].task.conn);
            && t.pool == Moved(s.pool, step.w, NextStage(s, step)) && t.loop == s.loop && t.conns == s.conns
            && t.books.built == s.books.built && t.books.rejected == s.books.rejected
            && t.books.finished == s.books.finished + (if step.CloseIpc? then [s.pool.workers[step.w].task] else [])
            && t.flags.busy == s.flags.busy - (if step.LetGo? || step.Clear? then {c} else {})
            && t.flags.completed == s.flags.completed + (if step.Announce? || step.Mark? then {c} else {})
            && t.flags.suspended == s.flags.suspended && t.flags.claimedSince == s.flags.claimedSince
  {
  }

  /** What it means for holding: a worker stops at the step that clears exec_busy, if it still holds. */
  lemma WorkerMovesHold(releases: bool, s: State, step: Step)
    requires Enabled(releases, s, step) && WorkerMove(step)
    ensures var (was, next) := (s.pool.workers[step.w].stage, NextStage(s, step));
            && (step.LetGo? || step.Clear? ==> !Owning(next) && (Owning(was) || was == Marked(true)))
            && (!step.LetGo? && !step.Clear? ==> Owning(next) == Owning(was))
            && (step.CloseIpc? ==> Carrying(was) && !Carrying(next))
            && (!step.CloseIpc? ==> Carrying(next) == Carrying(was))
  {
  }

  // ── One owner ─────────────────────────────────────────────────────────────────

  lemma WorkerHeld(s: State, w: nat)
    requires OneOwner(s) && w < |s.pool.workers| && Owning(s.pool.workers[w].stage)
    ensures s.pool.workers[w].task.conn in s.flags.busy
  {
    var c := s.pool.workers[w].task.conn;
    CountHas(s.pool.workers, w, HoldsConn(c));
    assert Holders(s, c) >= 1;
  }

  lemma LoopHeld(s: State, c: nat)
    requires OneOwner(s) && LoopHolds(s.loop, c)
    ensures c in s.flags.busy && Count(s.pool.queue, OnConn(c)) == 0 && Count(s.pool.workers, HoldsConn(c)) == 0
  {
    assert Holders(s, c) >= 1;
  }

  lemma MovedHolders(s: State, w: nat, x: Worker, c: nat)
    requires w < |s.pool.workers|
    ensures Count(s.pool.workers[w := x], HoldsConn(c)) + (if HoldsConn(c)(s.pool.workers[w]) then 1 else 0)
         == Count(s.pool.workers, HoldsConn(c)) + (if HoldsConn(c)(x) then 1 else 0)
  {
    CountUpdate(s.pool.workers, w, x, HoldsConn(c));
  }

  lemma WorkerMoveHolders(releases: bool, s: State, step: Step, c: nat)
    requires Enabled(releases, s, step) && WorkerMove(step) && OneOwner(s) && StaleIsIdle(s)
    ensures var t := Do(releases, s, step);
            Holders(t, c) == if c in t.flags.busy then 1 else 0
  {
    WorkerMoves(releases, s, step);
    WorkerMovesHold(releases, s, step);
    var w := s.pool.workers[step.w];
    if Owning(w.stage) { WorkerHeld(s, step.w); }
    assert Holders(s, c) == if c in s.flags.busy then 1 else 0;
    assert w.stage == Marked(true) ==> At(s, step.w, Marked(true)) && w.task.conn !in s.flags.busy;
    hide Do, Enabled, NextStage, Count, OneOwner, StaleIsIdle;
    MovedHolders(s, step.w, w.(stage := NextStage(s, step)), c);
  }

  lemma PopHolders(releases: bool, s: State, w: nat, c: nat)
    requires Enabled(releases, s, Pop(w))
    ensures Holders(Do(releases, s, Pop(w)), c) == Holders(s, c)
  {
    MovedHolders(s, w, Worker(Popped, s.pool.queue[0]), c);
  }

  lemma EnqueueHolders(releases: bool, s: State, c: nat)
    requires Enabled(releases, s, Enqueue)
    ensures Holders(Do(releases, s, Enqueue), c) == Holders(s, c)
  {
    CountAppend(s.pool.queue, s.loop.task, OnConn(c));
  }

  lemma OtherHolders(releases: bool, s: State, step: Step, c: nat)
    requires Enabled(releases, s, step) && !WorkerMove(step) && !step.Pop? && !step.Enqueue? && OneOwner(s)
    ensures var t := Do(releases, s, step);
            Holders(t, c) == if c in t.flags.busy then 1 else 0
  {
    hide Count;
    assert Holders(s, c) == if c in s.flags.busy then 1 else 0;
  }

  lemma StepKeepsOwner(releases: bool, s: State, step: Step)
    requires Enabled(releases, s, step) && OneOwner(s) && StaleIsIdle(s)
    ensures OneOwner(Do(releases, s, step))
  {
    hide StaleIsIdle, Do, Enabled, Holders;
    var t := Do(releases, s, step);
    forall c ensures Holders(t, c) == if c in t.flags.busy then 1 else 0 {
      if WorkerMove(step) { WorkerMoveHolders(releases, s, step, c); }
      else if step.Pop? { PopHolders(releases, s, step.w, c); SameBusy(releases, s, step); }
      else if step.Enqueue? { EnqueueHolders(releases, s, c); SameBusy(releases, s, step); }
      else { OtherHolders(releases, s, step, c); }
    }
  }

  lemma SameBusy(releases: bool, s: State, step: Step)
    requires Enabled(releases, s, step) && (step.Pop? || step.Enqueue?)
    ensures Do(releases, s, step).flags.busy == s.flags.busy
  {
  }

  // ── Every task in one place ───────────────────────────────────────────────────

  lemma WorkerMovePlaces(releases: bool, s: State, step: Step, t: Task)
    requires Enabled(releases, s, step) && WorkerMove(step)
    ensures Places(Do(releases, s, step), t) == Places(s, t)
  {
    WorkerMoves(releases, s, step);
    WorkerMovesHold(releases, s, step);
    hide Do, Enabled, NextStage, Count;
    var w := s.pool.workers[step.w];
    CountUpdate(s.pool.workers, step.w, w.(stage := NextStage(s, step)), Carries(t));
    if step.CloseIpc? { CountAppend(s.books.finished, w.task, Is(t)); } else { assert s.books.finished + [] == s.books.finished; }
  }

  lemma PopPlaces(releases: bool, s: State, w: nat, t: Task)
    requires Enabled(releases, s, Pop(w))
    ensures Places(Do(releases, s, Pop(w)), t) == Places(s, t)
  {
    CountUpdate(s.pool.workers, w, Worker(Popped, s.pool.queue[0]), Carries(t));
  }

  lemma EnqueuePlaces(releases: bool, s: State, t: Task)
    requires Enabled(releases, s, Enqueue)
    ensures Places(Do(releases, s, Enqueue), t) == Places(s, t)
  {
    CountAppend(s.pool.queue, s.loop.task, Is(t));
  }

  lemma OtherPlaces(releases: bool, s: State, step: Step, t: Task)
    requires Enabled(releases, s, step) && !WorkerMove(step) && !step.Pop? && !step.Enqueue?
    ensures Places(Do(releases, s, step), t)
         == Places(s, t) + if step.Build? && t == Task(|s.books.built|, s.loop.conn) then 1 else 0
  {
    if step.FinishReject? { CountAppend(s.books.rejected, s.loop.task, Is(t)); }
    hide Count;
  }

  /** Only the building of a task adds to the list of tasks built. */
  lemma StepBuilt(releases: bool, s: State, step: Step)
    requires Enabled(releases, s, step)
    ensures Do(releases, s, step).books.built
         == s.books.built + if step.Build? then [Task(|s.books.built|, s.loop.conn)] else []
  {
  }

  lemma StepKeepsAccounts(releases: bool, s: State, step: Step)
    requires Enabled(releases, s, step) && AllAccounted(s)
    ensures AllAccounted(Do(releases, s, step))
  {
    hide Do, Places;
    var s' := Do(releases, s, step);
    StepBuilt(releases, s, step);
    forall t ensures Places(s', t) == if t in s'.books.built then 1 else 0 {
      assert Places(s, t) == if t in s.books.built then 1 else 0;
      StepPlaces(releases, s, step, t);
    }
  }

  lemma StepPlaces(releases: bool, s: State, step: Step, t: Task)
    requires Enabled(releases, s, step)
    ensures Places(Do(releases, s, step), t)
         == Places(s, t) + if step.Build? && t == Task(|s.books.built|, s.loop.conn) then 1 else 0
  {
    hide Do, Enabled, Places;
    if WorkerMove(step) { WorkerMovePlaces(releases, s, step, t); }
    else if step.Pop? { PopPlaces(releases, s, step.w, t); }
    else if step.Enqueue? { EnqueuePlaces(releases, s, t); }
    else { OtherPlaces(releases, s, step, t); }
  }

  // ── The rest of the invariant ─────────────────────────────────────────────────

  lemma StepKeepsLive(releases: bool, s: State, step: Step)
    requires Enabled(releases, s, step) && BusyIsLive(s)
    ensures BusyIsLive(Do(releases, s, step))
  {
  }

  lemma StepKeepsQueue(releases: bool, s: State, step: Step)
    requires Enabled(releases, s, step) && QueueBounded(s)
    ensures QueueBounded(Do(releases, s, step))
  {
    var t := Do(releases, s, step);
    forall w: nat | At(t, w, Exited) ensures t.pool.shutdown && t.pool.queue == [] {
      assert At(s, w, Exited) || step == Exit(w);
    }
  }

  lemma WorkerMoveKeepsCompleted(releases: bool, s: State, step: Step)
    requires Enabled(releases, s, step) && WorkerMove(step) && CompletedFirst(s)
    ensures CompletedFirst(Do(releases, s, step))
  {
    var t := Do(releases, s, step);
    WorkerMoves(releases, s, step);
    forall w: nat | At(t, w, Announced) || At(t, w, Marked(false)) ensures t.pool.workers[w].task.conn in t.flags.completed {
      if w != step.w { assert At(s, w, t.pool.workers[w].stage); }
    }
  }

  lemma OtherKeepsCompleted(releases: bool, s: State, step: Step)
    requires Enabled(releases, s, step) && !WorkerMove(step) && CompletedFirst(s) && OneOwner(s)
    ensures CompletedFirst(Do(releases, s, step))
  {
    var t := Do(releases, s, step);
    forall w: nat | At(t, w, Announced) || At(t, w, Marked(false)) ensures t.pool.workers[w].task.conn in t.flags.completed {
      assert At(s, w, t.pool.workers[w].stage) && t.pool.workers[w] == s.pool.workers[w];
      var c := t.pool.workers[w].task.conn;
      WorkerHeld(s, w);
      if step.Build? && s.loop.conn == c {
        LoopHeld(s, c);
        CountHas(s.pool.workers, w, HoldsConn(c));
        assert false;
      }
    }
  }

  lemma StepKeepsStale(releases: bool, s: State, step: Step)
    requires Enabled(releases, s, step) && StaleIsIdle(s) && OneOwner(s) && !Early(s, step)
    ensures StaleIsIdle(Do(releases, s, step))
  {
    var t := Do(releases, s, step);
    forall w: nat | At(t, w, Returned(true)) || At(t, w, Marked(true)) ensures t.pool.workers[w].task.conn !in t.flags.busy {
      StaleBefore(releases, s, step, w);
    }
  }

  lemma StaleBefore(releases: bool, s: State, step: Step, w: nat)
    requires Enabled(releases, s, step) && StaleIsIdle(s) && !Early(s, step)
    requires var t := Do(releases, s, step); At(t, w, Returned(true)) || At(t, w, Marked(true))
    ensures var t := Do(releases, s, step); t.pool.workers[w].task.conn !in t.flags.busy
  {
    StaleWas(releases, s, step, w);
    var c := s.pool.workers[w].task.conn;
    if step != LetGo(w) {
      assert c !in s.flags.busy && (step.Claim? ==> c != step.conn);
      BusyGrows(releases, s, step, c);
    }
  }

  lemma BusyGrows(releases: bool, s: State, step: Step, c: nat)
    requires Enabled(releases, s, step) && c !in s.flags.busy && (step.Claim? ==> c != step.conn)
    ensures c !in Do(releases, s, step).flags.busy
  {
  }

  lemma StaleWas(releases: bool, s: State, step: Step, w: nat)
    requires Enabled(releases, s, step)
    requires var t := Do(releases, s, step); At(t, w, Returned(true)) || At(t, w, Marked(true))
    ensures var t := Do(releases, s, step);
            && w < |s.pool.workers| && t.pool.workers[w].task == s.pool.workers[w].task
            && (step == LetGo(w) ==> t.pool.workers[w].task.conn !in t.flags.busy)
            && (step != LetGo(w) ==> Stale(s.pool.workers[w].stage) && (At(s, w, Returned(true)) || At(s, w, Marked(true))))
  {
    if WorkerMove(step) {
      WorkerMoves(releases, s, step);
      hide Do;
    }
  }

  lemma WorkerMoveKeepsHeartbeat(releases: bool, s: State, step: Step)
    requires Enabled(releases, s, step) && WorkerMove(step) && HeartbeatOwed(s) && CompletedFirst(s) && StaleIsIdle(s)
    ensures HeartbeatOwed(Do(releases, s, step))
  {
    WorkerMoves(releases, s, step);
    assert step.Clear? ==> At(s, step.w, Marked(false)) || At(s, step.w, Marked(true));
    assert step.LetGo? ==> At(s, step.w, Announced);
    hide Do, Enabled;
  }

  lemma OtherKeepsHeartbeat(releases: bool, s: State, step: Step)
    requires Enabled(releases, s, step) && !WorkerMove(step) && HeartbeatOwed(s) && CompletedFirst(s) && OneOwner(s)
    ensures HeartbeatOwed(Do(releases, s, step))
  {
    if step.Build? { LoopHeld(s, s.loop.conn); }
    hide OneOwner;
  }

  lemma StepKeepsInv(releases: bool, s: State, step: Step)
    requires Enabled(releases, s, step) && Inv(s) && !Early(s, step)
    ensures Inv(Do(releases, s, step))
  {
    hide Enabled, Do, Early, OneOwner, BusyIsLive, CompletedFirst, StaleIsIdle, QueueBounded, AllAccounted, HeartbeatOwed;
    StepKeepsOwner(releases, s, step);
    StepKeepsLive(releases, s, step);
    StepKeepsQueue(releases, s, step);
    StepKeepsAccounts(releases, s, step);
    StepKeepsStale(releases, s, step);
    if WorkerMove(step) {
      WorkerMoveKeepsCompleted(releases, s, step);
      WorkerMoveKeepsHeartbeat(releases, s, step);
    } else {
      OtherKeepsCompleted(releases, s, step);
      OtherKeepsHeartbeat(releases, s, step);
    }
  }

  // ── Whole runs ────────────────────────────────────────────────────────────────

  predicate Valid(releases: bool, s: State, steps: seq<Step>)
    decreases |steps|
  {
    steps == [] || (Enabled(releases, s, steps[0]) && Valid(releases, Do(releases, s, steps[0]), steps[1..]))
  }

  function DoAll(releases: bool, s: State, steps: seq<Step>): State
    requires Valid(releases, s, steps)
    decreases |steps|
  {
    if steps == [] then s else DoAll(releases, Do(releases, s, steps[0]), steps[1..])
  }

  /** No connection is claimed while the worker that had it last has yet to clear the flag again. */
  ghost predicate NeverEarly(releases: bool, s: State, steps: seq<Step>)
    requires Valid(releases, s, steps)
    decreases |steps|
  {
    steps == [] || (!Early(s, steps[0]) && NeverEarly(releases, Do(releases, s, steps[0]), steps[1..]))
  }

  lemma {:induction false} NothingCounts<A>(xs: seq<A>, p: A -> bool)
    requires forall x :: x in xs ==> !p(x)
    ensures Count(xs, p) == 0
  {
    if xs != [] { NothingCounts(xs[1..], p); }
  }

  lemma InitHolds(workers: nat)
    ensures Inv(Init(workers))
  {
    var s := Init(workers);
    forall c ensures Holders(s, c) == 0 { NothingCounts(s.pool.workers, HoldsConn(c)); }
    forall t ensures Places(s, t) == 0 { NothingCounts(s.pool.workers, Carries(t)); }
  }

  lemma {:induction false} RunKeepsInv(releases: bool, s: State, steps: seq<Step>)
    requires Inv(s) && Valid(releases, s, steps) && NeverEarly(releases, s, steps)
    ensures Inv(DoAll(releases, s, steps))
    decreases |steps|
  {
    hide Inv, Enabled, Do, Early;
    if steps != [] {
      StepKeepsInv(releases, s, steps[0]);
      RunKeepsInv(releases, Do(releases, s, steps[0]), steps[1..]);
    }
  }

  /** The handler leaves the flags alone: then there is nothing to be early for. */
  ghost predicate NobodyStale(s: State) {
    forall w: nat :: !At(s, w, Announced) && !At(s, w, Returned(true)) && !At(s, w, Marked(true))
  }

  lemma StepKeepsNobodyStale(s: State, step: Step)
    requires Enabled(false, s, step) && NobodyStale(s)
    ensures NobodyStale(Do(false, s, step)) && !Early(s, step)
  {
    var t := Do(false, s, step);
    forall w: nat ensures !At(t, w, Announced) && !At(t, w, Returned(true)) && !At(t, w, Marked(true)) {
      assert !At(s, w, Announced) && !At(s, w, Returned(true)) && !At(s, w, Marked(true));
    }
    forall w: nat | w < |s.pool.workers| ensures !Stale(s.pool.workers[w].stage) {
      assert !At(s, w, Returned(true)) && !At(s, w, Marked(true));
    }
  }

  lemma {:induction false} PoolOnlyIsNeverEarly(s: State, steps: seq<Step>)
    requires NobodyStale(s) && Valid(false, s, steps)
    ensures NeverEarly(false, s, steps)
    decreases |steps|
  {
    hide NobodyStale, Enabled, Do, Early;
    if steps != [] {
      StepKeepsNobodyStale(s, steps[0]);
      PoolOnlyIsNeverEarly(Do(false, s, steps[0]), steps[1..]);
    }
  }

  /** In every run, of any number of workers, whose claims are never early, the invariant holds
      throughout. */
  lemma HandOverIsSafe(releases: bool, workers: nat, steps: seq<Step>)
    requires Valid(releases, Init(workers), steps) && NeverEarly(releases, Init(workers), steps)
    ensures Inv(DoAll(releases, Init(workers), steps))
  {
    hide Inv, Valid, NeverEarly, Init;
    InitHolds(workers);
    RunKeepsInv(releases, Init(workers), steps);
  }

  // ── Who is refused, and in which order the others go ──────────────────────────

  lemma {:induction false} RunKeepsQueue(releases: bool, s: State, steps: seq<Step>)
    requires QueueBounded(s) && Valid(releases, s, steps)
    ensures QueueBounded(DoAll(releases, s, steps))
    decreases |steps|
  {
    hide QueueBounded, Enabled, Do;
    if steps != [] {
      StepKeepsQueue(releases, s, steps[0]);
      RunKeepsQueue(releases, Do(releases, s, steps[0]), steps[1..]);
    }
  }

  /** In every run, early claims or not: a task is refused exactly after a shutdown or while 64 tasks
      wait; otherwise it is queued behind those. */
  lemma RefusedExactlyWhenFull(releases: bool, workers: nat, steps: seq<Step>)
    requires Valid(releases, Init(workers), steps) && DoAll(releases, Init(workers), steps).loop.Built?
    ensures var s := DoAll(releases, Init(workers), steps);
            && Enabled(releases, s, Enqueue)
            && var t := Do(releases, s, Enqueue);
               if s.pool.shutdown || |s.pool.queue| == 64 then
                 t.loop == Rejecting(s.loop.task) && t.pool == s.pool
               else t.loop == Free && t.pool.queue == s.pool.queue + [s.loop.task]
  {
    assert QueueBounded(Init(workers));
    hide Init, DoAll, Valid;
    RunKeepsQueue(releases, Init(workers), steps);
  }

  /** Nobody was refused, and everyone who waits was built. */
  ghost predicate Room(s: State) {
    && !s.pool.shutdown && s.books.rejected == [] && !s.loop.Rejecting?
    && |s.pool.queue| + (if s.loop.Built? then 1 else 0) <= |s.books.built|
  }

  lemma StepKeepsRoom(releases: bool, s: State, step: Step)
    requires Enabled(releases, s, step) && Room(s) && !step.Shutdown? && |s.books.built| <= 64
    ensures Room(Do(releases, s, step))
  {
  }

  lemma {:induction false} BuiltGrows(releases: bool, s: State, steps: seq<Step>)
    requires Valid(releases, s, steps)
    ensures |s.books.built| <= |DoAll(releases, s, steps).books.built|
    decreases |steps|
  {
    hide Enabled, Do;
    if steps != [] {
      StepBuilt(releases, s, steps[0]);
      BuiltGrows(releases, Do(releases, s, steps[0]), steps[1..]);
    }
  }

  lemma {:induction false} RunKeepsRoom(releases: bool, s: State, steps: seq<Step>)
    requires Room(s) && Valid(releases, s, steps) && Shutdown !in steps
    requires |DoAll(releases, s, steps).books.built| <= 64
    ensures Room(DoAll(releases, s, steps))
    decreases |steps|
  {
    hide Room, Enabled, Do;
    if steps != [] {
      BuiltGrows(releases, s, steps);
      StepKeepsRoom(releases, s, steps[0]);
      RunKeepsRoom(releases, Do(releases, s, steps[0]), steps[1..]);
    }
  }

  /** Of 64 tasks or fewer, none is refused before a shutdown. */
  lemma SixtyFourAreTaken(releases: bool, workers: nat, steps: seq<Step>)
    requires Valid(releases, Init(workers), steps) && Shutdown !in steps
    requires |DoAll(releases, Init(workers), steps).books.built| <= 64
    ensures var s := DoAll(releases, Init(workers), steps);
            s.books.rejected == [] && !s.loop.Rejecting?
  {
    assert Room(Init(workers));
    hide Init, DoAll, Valid;
    RunKeepsRoom(releases, Init(workers), steps);
  }

  /** Tasks leave the queue in the order in which they were built: whoever has run, is finished or is with
      a worker was built before everyone who waits. */
  ghost predicate InOrder(s: State) {
    && (forall i, j :: 0 <= i < j < |s.pool.queue| ==> s.pool.queue[i].id < s.pool.queue[j].id)
    && (forall i, w :: 0 <= i < |s.pool.queue| && 0 <= w < |s.pool.workers| && Carrying(s.pool.workers[w].stage) ==>
          s.pool.workers[w].task.id < s.pool.queue[i].id)
    && (forall i, id :: 0 <= i < |s.pool.queue| && id in s.books.ran ==> id < s.pool.queue[i].id)
    && (forall i, k :: 0 <= i < |s.pool.queue| && 0 <= k < |s.books.finished| ==> s.books.finished[k].id < s.pool.queue[i].id)
  }

  /** Everything with a task's number is older than the next one to be queued. */
  ghost predicate Older(s: State) {
    var next := if s.loop.Built? then s.loop.task.id else |s.books.built|;
    && next <= |s.books.built| && (s.loop.Built? ==> next < |s.books.built|)
    && (forall i :: 0 <= i < |s.pool.queue| ==> s.pool.queue[i].id < next)
    && (forall w :: 0 <= w < |s.pool.workers| && Carrying(s.pool.workers[w].stage) ==> s.pool.workers[w].task.id < next)
    && (forall id :: id in s.books.ran ==> id < next)
    && (forall k :: 0 <= k < |s.books.finished| ==> s.books.finished[k].id < next)
  }

  lemma WorkerMoveKeepsOrder(releases: bool, s: State, step: Step)
    requires Enabled(releases, s, step) && WorkerMove(step) && InOrder(s) && Older(s)
    ensures InOrder(Do(releases, s, step)) && Older(Do(releases, s, step))
  {
    WorkerMoves(releases, s, step);
    WorkerMovesHold(releases, s, step);
    WorkerMovesRan(releases, s, step);
    hide Do, Enabled, NextStage;
    var t := Do(releases, s, step);
    forall w | 0 <= w < |t.pool.workers| && Carrying(t.pool.workers[w].stage)
      ensures Carrying(s.pool.workers[w].stage) && t.pool.workers[w].task == s.pool.workers[w].task
    {
    }
  }

  lemma WorkerMovesRan(releases: bool, s: State, step: Step)
    requires Enabled(releases, s, step) && WorkerMove(step)
    ensures step.w < |s.pool.workers|
    ensures var (t, w) := (Do(releases, s, step), s.pool.workers[step.w]);
            && (t.books.ran == s.books.ran || (t.books.ran == s.books.ran + {w.task.id} && Carrying(w.stage)))
            && t.books.cancelled == s.books.cancelled && t.books.current == s.books.current
  {
  }

  lemma PopKeepsOrder(releases: bool, s: State, w: nat)
    requires Enabled(releases, s, Pop(w)) && InOrder(s) && Older(s)
    ensures InOrder(Do(releases, s, Pop(w))) && Older(Do(releases, s, Pop(w)))
  {
  }

  lemma EnqueueKeepsOrder(releases: bool, s: State)
    requires Enabled(releases, s, Enqueue) && InOrder(s) && Older(s)
    ensures InOrder(Do(releases, s, Enqueue)) && Older(Do(releases, s, Enqueue))
  {
  }

  lemma OtherKeepsOrder(releases: bool, s: State, step: Step)
    requires Enabled(releases, s, step) && !WorkerMove(step) && !step.Pop? && !step.Enqueue? && InOrder(s) && Older(s)
    ensures InOrder(Do(releases, s, step)) && Older(Do(releases, s, step))
  {
    LoopStepsKeep(releases, s, step);
    hide Do, Enabled;
  }

  /** What no step of the event loop changes but a queueing. */
  lemma LoopStepsKeep(releases: bool, s: State, step: Step)
    requires Enabled(releases, s, step) && !WorkerMove(step) && !step.Pop? && !step.Enqueue?
    ensures var t := Do(releases, s, step);
            && t.pool.queue == s.pool.queue && t.pool.workers == s.pool.workers && t.books.ran == s.books.ran
            && t.books.finished == s.books.finished && (t.loop.Built? ==> step.Build? || t.loop == s.loop)
            && (s.loop.Built? ==> t.loop == s.loop)
            && (step.Build? ==> t.loop.Built? && t.loop.task.id == |s.books.built|)
            && |t.books.built| == |s.books.built| + if step.Build? then 1 else 0
  {
  }

  lemma {:induction false} RunKeepsOrder(releases: bool, s: State, steps: seq<Step>)
    requires InOrder(s) && Older(s) && Valid(releases, s, steps)
    ensures InOrder(DoAll(releases, s, steps))
    decreases |steps|
  {
    hide InOrder, Older, Enabled, Do;
    if steps != [] {
      var step := steps[0];
      if WorkerMove(step) { WorkerMoveKeepsOrder(releases, s, step); }
      else if step.Pop? { PopKeepsOrder(releases, s, step.w); }
      else if step.Enqueue? { EnqueueKeepsOrder(releases, s); }
      else { OtherKeepsOrder(releases, s, step); }
      RunKeepsOrder(releases, Do(releases, s, step), steps[1..]);
    }
  }

  /** In every run, early claims or not. */
  lemma FirstBuiltFirstServed(releases: bool, workers: nat, steps: seq<Step>)
    requires Valid(releases, Init(workers), steps)
    ensures InOrder(DoAll(releases, Init(workers), steps))
  {
    assert InOrder(Init(workers)) && Older(Init(workers));
    hide Init, InOrder, Older, Valid, DoAll;
    RunKeepsOrder(releases, Init(workers), steps);
  }

  // ── What a cancellation reaches ───────────────────────────────────────────────

  /** The flag that a held connection points at is that of the task that holds it. */
  ghost predicate CurrentIsHolder(s: State) {
    && (s.loop.Built? || s.loop.Rejecting? ==> IsCurrent(s, s.loop.task))
    && (forall i :: 0 <= i < |s.pool.queue| ==> IsCurrent(s, s.pool.queue[i]))
    && (forall w :: 0 <= w < |s.pool.workers| && Owning(s.pool.workers[w].stage) ==> IsCurrent(s, s.pool.workers[w].task))
  }

  predicate IsCurrent(s: State, t: Task) {
    t.conn in s.books.current && s.books.current[t.conn] == t.id
  }

  lemma BuildKeepsCurrent(releases: bool, s: State)
    requires Enabled(releases, s, Build) && OneOwner(s) && CurrentIsHolder(s)
    ensures CurrentIsHolder(Do(releases, s, Build))
  {
    var (c, t) := (s.loop.conn, Do(releases, s, Build));
    LoopHeld(s, c);
    forall i | 0 <= i < |s.pool.queue| ensures IsCurrent(t, s.pool.queue[i]) {
      assert IsCurrent(s, s.pool.queue[i]);
      if s.pool.queue[i].conn == c { CountHas(s.pool.queue, i, OnConn(c)); }
    }
    forall w | 0 <= w < |s.pool.workers| && Owning(s.pool.workers[w].stage) ensures IsCurrent(t, s.pool.workers[w].task) {
      assert IsCurrent(s, s.pool.workers[w].task);
      if s.pool.workers[w].task.conn == c { CountHas(s.pool.workers, w, HoldsConn(c)); }
    }
  }

  lemma WorkerMoveKeepsCurrent(releases: bool, s: State, step: Step)
    requires Enabled(releases, s, step) && WorkerMove(step) && CurrentIsHolder(s)
    ensures CurrentIsHolder(Do(releases, s, step))
  {
    WorkerMoves(releases, s, step);
    WorkerMovesHold(releases, s, step);
    WorkerMovesRan(releases, s, step);
    hide Do, Enabled, NextStage;
    var t := Do(releases, s, step);
    forall w | 0 <= w < |t.pool.workers| && Owning(t.pool.workers[w].stage) ensures IsCurrent(t, t.pool.workers[w].task) {
      assert IsCurrent(s, s.pool.workers[w].task);
    }
  }

  lemma PopKeepsCurrent(releases: bool, s: State, w: nat)
    requires Enabled(releases, s, Pop(w)) && CurrentIsHolder(s)
    ensures CurrentIsHolder(Do(releases, s, Pop(w)))
  {
  }

  lemma OtherKeepsCurrent(releases: bool, s: State, step: Step)
    requires Enabled(releases, s, step) && !WorkerMove(step) && !step.Pop? && !step.Build? && CurrentIsHolder(s)
    ensures CurrentIsHolder(Do(releases, s, step))
  {
  }

  lemma StepKeepsCurrent(releases: bool, s: State, step: Step)
    requires Enabled(releases, s, step) && OneOwner(s) && CurrentIsHolder(s)
    ensures CurrentIsHolder(Do(releases, s, step))
  {
    hide Enabled, Do, OneOwner, CurrentIsHolder;
    if step.Build? { BuildKeepsCurrent(releases, s); }
    else if WorkerMove(step) { WorkerMoveKeepsCurrent(releases, s, step); }
    else if step.Pop? { PopKeepsCurrent(releases, s, step.w); }
    else { OtherKeepsCurrent(releases, s, step); }
  }

  lemma {:induction false} RunKeepsCurrent(releases: bool, s: State, steps: seq<Step>)
    requires Inv(s) && CurrentIsHolder(s) && Valid(releases, s, steps) && NeverEarly(releases, s, steps)
    ensures CurrentIsHolder(DoAll(releases, s, steps))
    decreases |steps|
  {
    hide OneOwner, BusyIsLive, CompletedFirst, StaleIsIdle, QueueBounded, AllAccounted, HeartbeatOwed, CurrentIsHolder, Enabled, Do, Early;
    if steps != [] {
      StepKeepsInv(releases, s, steps[0]);
      StepKeepsCurrent(releases, s, steps[0]);
      RunKeepsCurrent(releases, Do(releases, s, steps[0]), steps[1..]);
    }
  }

  /** A running handler is on record. */
  ghost predicate Recorded(s: State) {
    forall w :: 0 <= w < |s.pool.workers| && (s.pool.workers[w].stage.Running? || s.pool.workers[w].stage.Announced?) ==>
      s.pool.workers[w].task.id in s.books.ran
  }

  lemma StepRecords(releases: bool, s: State, step: Step)
    requires Enabled(releases, s, step) && Recorded(s)
    ensures Recorded(Do(releases, s, step))
  {
  }

  lemma {:induction false} RunRecords(releases: bool, s: State, steps: seq<Step>)
    requires Recorded(s) && Valid(releases, s, steps)
    ensures Recorded(DoAll(releases, s, steps))
    decreases |steps|
  {
    hide Recorded, Enabled, Do;
    if steps != [] {
      StepRecords(releases, s, steps[0]);
      RunRecords(releases, Do(releases, s, steps[0]), steps[1..]);
    }
  }

  lemma CancelMarks(releases: bool, s: State, t: Task, k: nat)
    requires k < |s.pool.queue| && s.pool.queue[k] == t && CurrentIsHolder(s) && InOrder(s)
    requires Enabled(releases, s, Cancel(t.conn))
    ensures var b := Do(releases, s, Cancel(t.conn)).books;
            t.id in b.cancelled && t.id !in b.ran
  {
    assert IsCurrent(s, t);
  }

  /** Cancelling a connection whose task waits in the queue: that task never runs, whatever happens later. */
  lemma CancelStopsQueued(releases: bool, workers: nat, steps: seq<Step>, t: Task, k: nat, more: seq<Step>)
    requires Valid(releases, Init(workers), steps) && NeverEarly(releases, Init(workers), steps)
    requires var s := DoAll(releases, Init(workers), steps);
             && k < |s.pool.queue| && s.pool.queue[k] == t
             && Enabled(releases, s, Cancel(t.conn)) && Valid(releases, Do(releases, s, Cancel(t.conn)), more)
    ensures var s := DoAll(releases, Init(workers), steps);
            var later := DoAll(releases, Do(releases, s, Cancel(t.conn)), more);
            t.id !in later.books.ran && forall w: nat :: At(later, w, Running) ==> later.pool.workers[w].task != t
  {
    assert CurrentIsHolder(Init(workers)) && Recorded(Init(workers));
    RunRecords(releases, Init(workers), steps);
    StepRecords(releases, DoAll(releases, Init(workers), steps), Cancel(t.conn));
    RunRecords(releases, Do(releases, DoAll(releases, Init(workers), steps), Cancel(t.conn)), more);
    hide Init, Inv, InOrder, CurrentIsHolder, Valid, DoAll, NeverEarly, Enabled, Do;
    InitHolds(workers);
    RunKeepsCurrent(releases, Init(workers), steps);
    FirstBuiltFirstServed(releases, workers, steps);
    var s := DoAll(releases, Init(workers), steps);
    CancelMarks(releases, s, t, k);
    CancelledNeverRuns(releases, Do(releases, s, Cancel(t.conn)), more, t.id);
  }

  // ── What exec_completed says ──────────────────────────────────────────────────

  /** The task has not ended: it waits, is on its way to its handler, runs, or its handler has thrown or left
      the flags alone. */
  predicate UnderWay(stage: Stage) { stage.Popped? || stage.Running? || stage == Returned(false) }

  /** exec_completed is not set while a task is under way. */
  ghost predicate NotYetCompleted(s: State) {
    && (s.loop.Built? ==> s.loop.task.conn !in s.flags.completed)
    && (forall i :: 0 <= i < |s.pool.queue| ==> s.pool.queue[i].conn !in s.flags.completed)
    && (forall w :: 0 <= w < |s.pool.workers| && UnderWay(s.pool.workers[w].stage) ==>
          s.pool.workers[w].task.conn !in s.flags.completed)
  }

  /** Nobody else has what a worker or a hand-off has. */
  lemma NobodyElse(s: State, c: nat)
    requires OneOwner(s)
    ensures c !in s.flags.busy || LoopHolds(s.loop, c) ==>
              && (forall i :: 0 <= i < |s.pool.queue| ==> s.pool.queue[i].conn != c)
              && (forall w :: 0 <= w < |s.pool.workers| && Owning(s.pool.workers[w].stage) ==> s.pool.workers[w].task.conn != c)
    ensures c !in s.flags.busy ==> !LoopHolds(s.loop, c)
  {
    assert Holders(s, c) == if c in s.flags.busy then 1 else 0;
    forall i | 0 <= i < |s.pool.queue| && s.pool.queue[i].conn == c ensures Count(s.pool.queue, OnConn(c)) >= 1 {
      CountHas(s.pool.queue, i, OnConn(c));
    }
    forall w | 0 <= w < |s.pool.workers| && Owning(s.pool.workers[w].stage) && s.pool.workers[w].task.conn == c
      ensures Count(s.pool.workers, HoldsConn(c)) >= 1
    {
      CountHas(s.pool.workers, w, HoldsConn(c));
    }
  }

  lemma NoOtherWorker(s: State, v: nat)
    requires OneOwner(s) && v < |s.pool.workers| && Owning(s.pool.workers[v].stage)
    ensures var c := s.pool.workers[v].task.conn;
            && !LoopHolds(s.loop, c) && (forall i :: 0 <= i < |s.pool.queue| ==> s.pool.queue[i].conn != c)
            && forall w :: 0 <= w < |s.pool.workers| && w != v && Owning(s.pool.workers[w].stage) ==> s.pool.workers[w].task.conn != c
  {
    var c := s.pool.workers[v].task.conn;
    assert Holders(s, c) == if c in s.flags.busy then 1 else 0;
    CountHas(s.pool.workers, v, HoldsConn(c));
    forall i | 0 <= i < |s.pool.queue| && s.pool.queue[i].conn == c ensures Count(s.pool.queue, OnConn(c)) >= 1 {
      CountHas(s.pool.queue, i, OnConn(c));
    }
    forall w | 0 <= w < |s.pool.workers| && w != v && Owning(s.pool.workers[w].stage) && s.pool.workers[w].task.conn == c
      ensures Count(s.pool.workers, HoldsConn(c)) >= 2
    {
      CountTwo(s.pool.workers, v, w, HoldsConn(c));
    }
  }

  /** A worker's step that leaves exec_completed alone. */
  lemma QuietMoveKeepsUnderWay(releases: bool, s: State, step: Step)
    requires Enabled(releases, s, step) && WorkerMove(step) && !step.Announce? && !step.Mark? && NotYetCompleted(s)
    ensures NotYetCompleted(Do(releases, s, step))
  {
    WorkerMoves(releases, s, step);
    MovesUnderWay(releases, s, step);
    assert s.flags.completed + {} == s.flags.completed;
    hide Do, Enabled, NextStage, Owning, UnderWay;
  }

  /** A worker that sets exec_completed of a connection that no other task is under way on. */
  lemma EndingMoveKeepsUnderWay(releases: bool, s: State, step: Step, c: nat)
    requires Enabled(releases, s, step) && (step.Announce? || step.Mark?) && NotYetCompleted(s)
    requires step.w < |s.pool.workers| && c == s.pool.workers[step.w].task.conn && !LoopHolds(s.loop, c)
    requires forall i :: 0 <= i < |s.pool.queue| ==> s.pool.queue[i].conn != c
    requires forall w :: 0 <= w < |s.pool.workers| && w != step.w && Owning(s.pool.workers[w].stage) ==> s.pool.workers[w].task.conn != c
    ensures NotYetCompleted(Do(releases, s, step))
  {
    WorkerMoves(releases, s, step);
    MovesUnderWay(releases, s, step);
    hide Do, Enabled, NextStage, Owning, UnderWay;
  }

  lemma WorkerMoveKeepsUnderWay(releases: bool, s: State, step: Step)
    requires Enabled(releases, s, step) && WorkerMove(step) && OneOwner(s) && StaleIsIdle(s) && NotYetCompleted(s)
    ensures NotYetCompleted(Do(releases, s, step))
  {
    WorkerMoves(releases, s, step);
    MovesUnderWay(releases, s, step);
    var v := s.pool.workers[step.w];
    assert v.stage == Returned(true) ==> At(s, step.w, Returned(true)) && v.task.conn !in s.flags.busy;
    hide Do, Enabled, NextStage, OneOwner, StaleIsIdle, Owning, UnderWay, NotYetCompleted, LoopHolds;
    if step.Announce? || step.Mark? {
      if Owning(v.stage) { NoOtherWorker(s, step.w); } else { NobodyElse(s, v.task.conn); }
      EndingMoveKeepsUnderWay(releases, s, step, v.task.conn);
    } else {
      QuietMoveKeepsUnderWay(releases, s, step);
    }
  }

  lemma MovesUnderWay(releases: bool, s: State, step: Step)
    requires Enabled(releases, s, step) && WorkerMove(step)
    ensures var (was, next) := (s.pool.workers[step.w].stage, NextStage(s, step));
            && (UnderWay(next) ==> UnderWay(was) && !step.Announce? && !step.Mark?)
            && (step.Announce? || step.Mark? ==> Owning(was) || was == Returned(true))
    ensures forall stage :: UnderWay(stage) ==> Owning(stage)
  {
  }

  lemma BuildStarts(releases: bool, s: State)
    requires Enabled(releases, s, Build) && NotYetCompleted(s)
    ensures NotYetCompleted(Do(releases, s, Build))
  {
  }

  lemma EnqueueKeepsUnderWay(releases: bool, s: State)
    requires Enabled(releases, s, Enqueue) && OneOwner(s) && NotYetCompleted(s)
    ensures NotYetCompleted(Do(releases, s, Enqueue))
  {
    NobodyElse(s, s.loop.task.conn);
    hide OneOwner;
  }

  lemma OtherKeepsUnderWay(releases: bool, s: State, step: Step)
    requires Enabled(releases, s, step) && !WorkerMove(step) && !step.Build? && !step.Enqueue? && NotYetCompleted(s)
    ensures NotYetCompleted(Do(releases, s, step))
  {
  }

  lemma {:induction false} RunKeepsUnderWay(releases: bool, s: State, steps: seq<Step>)
    requires Inv(s) && NotYetCompleted(s) && Valid(releases, s, steps) && NeverEarly(releases, s, steps)
    ensures NotYetCompleted(DoAll(releases, s, steps))
    decreases |steps|
  {
    hide OneOwner, BusyIsLive, CompletedFirst, StaleIsIdle, QueueBounded, AllAccounted, HeartbeatOwed, NotYetCompleted, Enabled, Do, Early;
    if steps != [] {
      var step := steps[0];
      StepKeepsInv(releases, s, step);
      if WorkerMove(step) { WorkerMoveKeepsUnderWay(releases, s, step); }
      else if step.Build? { BuildStarts(releases, s); }
      else if step.Enqueue? { EnqueueKeepsUnderWay(releases, s); }
      else { OtherKeepsUnderWay(releases, s, step); }
      RunKeepsUnderWay(releases, Do(releases, s, step), steps[1..]);
    }
  }

  /** In every run without early claims: a set exec_completed means that the last operation has ended. */
  lemma CompletedMeansEnded(releases: bool, workers: nat, steps: seq<Step>)
    requires Valid(releases, Init(workers), steps) && NeverEarly(releases, Init(workers), steps)
    ensures NotYetCompleted(DoAll(releases, Init(workers), steps))
  {
    assert NotYetCompleted(Init(workers));
    hide Init, Inv, NotYetCompleted, Valid, DoAll, NeverEarly;
    InitHolds(workers);
    RunKeepsUnderWay(releases, Init(workers), steps);
  }

  // ── Every hand-over can end ───────────────────────────────────────────────────

  /** The steps that a worker has before it waits again. */
  function StepsLeft(stage: Stage): nat {
    match stage
    case Popped => 6
    case Running => 5
    case Announced => 4
    case Returned(_) => 3
    case Marked(_) => 2
    case Cleared => 1
    case _ => 0
  }

  function AllStepsLeft(ws: seq<Worker>): nat {
    if ws == [] then 0 else StepsLeft(ws[0].stage) + AllStepsLeft(ws[1..])
  }

  lemma {:induction false} StepsLeftUpdate(ws: seq<Worker>, i: nat, x: Worker)
    requires i < |ws|
    ensures AllStepsLeft(ws[i := x]) + StepsLeft(ws[i].stage) == AllStepsLeft(ws) + StepsLeft(x.stage)
  {
    if i == 0 {
      assert ws[i := x][1..] == ws[1..];
    } else {
      assert ws[i := x][1..] == ws[1..][i - 1 := x];
      StepsLeftUpdate(ws[1..], i - 1, x);
    }
  }

  function NextStep(releases: bool, stage: Stage, w: nat): Step {
    match stage
    case Popped => Start(w)
    case Running => if releases then Announce(w) else Return(w)
    case Announced => LetGo(w)
    case Returned(_) => Mark(w)
    case Marked(_) => Clear(w)
    case _ => CloseIpc(w)
  }

  lemma WorkerGoesOn(releases: bool, s: State, w: nat)
    requires w < |s.pool.workers| && Carrying(s.pool.workers[w].stage)
    ensures var step := NextStep(releases, s.pool.workers[w].stage, w);
            && WorkerMove(step) && Enabled(releases, s, step)
            && var t := Do(releases, s, step);
               t.pool.queue == s.pool.queue && AllStepsLeft(t.pool.workers) < AllStepsLeft(s.pool.workers)
               && t.loop == s.loop && |t.pool.workers| == |s.pool.workers|
  {
    hide AllStepsLeft;
    var step := NextStep(releases, s.pool.workers[w].stage, w);
    var t := Do(releases, s, step);
    StepsLeftUpdate(s.pool.workers, w, t.pool.workers[w]);
    assert t.pool.workers == s.pool.workers[w := t.pool.workers[w]];
  }

  lemma WorkerTakes(releases: bool, s: State, w: nat)
    requires At(s, w, Waiting) && s.pool.queue != []
    ensures Enabled(releases, s, Pop(w))
    ensures var t := Do(releases, s, Pop(w));
            && 7 * |t.pool.queue| + AllStepsLeft(t.pool.workers) < 7 * |s.pool.queue| + AllStepsLeft(s.pool.workers)
            && t.loop == s.loop && |t.pool.workers| == |s.pool.workers|
  {
    hide AllStepsLeft;
    StepsLeftUpdate(s.pool.workers, w, Worker(Popped, s.pool.queue[0]));
  }

  /** No task waits and no worker has one. */
  ghost predicate AtRest(s: State) {
    s.pool.queue == [] && forall w :: 0 <= w < |s.pool.workers| ==> !Carrying(s.pool.workers[w].stage)
  }

  /** The workers alone can bring every task to its end, from any state that a run can reach. */
  lemma {:induction false} WorkersFinish(releases: bool, s: State) returns (steps: seq<Step>)
    requires QueueBounded(s) && |s.pool.workers| > 0
    ensures WorkersOnly(steps) && Valid(releases, s, steps)
    ensures var t := DoAll(releases, s, steps);
            AtRest(t) && t.loop == s.loop
    decreases 7 * |s.pool.queue| + AllStepsLeft(s.pool.workers)
  {
    hide Enabled, Do, AllStepsLeft, QueueBounded;
    if AtRest(s) { return []; }
    var step;
    if w :| 0 <= w < |s.pool.workers| && Carrying(s.pool.workers[w].stage) {
      step := NextStep(releases, s.pool.workers[w].stage, w);
      WorkerGoesOn(releases, s, w);
    } else {
      step := Pop(0);
      SomeoneWaits(s);
      WorkerTakes(releases, s, 0);
    }
    StepKeepsQueue(releases, s, step);
    var rest := WorkersFinish(releases, Do(releases, s, step));
    steps := [step] + rest;
    assert steps[1..] == rest;
  }

  lemma SomeoneWaits(s: State)
    requires QueueBounded(s) && s.pool.queue != [] && |s.pool.workers| > 0 && !Carrying(s.pool.workers[0].stage)
    ensures At(s, 0, Waiting)
  {
    assert At(s, 0, s.pool.workers[0].stage);
  }

  /** So no connection has to stay busy: from any point of a run without early claims where the loop is not
      in a hand-off, the workers can clear every flag. */
  lemma EveryFlagCanClear(releases: bool, workers: nat, steps: seq<Step>) returns (more: seq<Step>)
    requires workers > 0 && Valid(releases, Init(workers), steps) && NeverEarly(releases, Init(workers), steps)
    requires var s := DoAll(releases, Init(workers), steps); s.loop.Free? || s.loop.Using?
    ensures var s := DoAll(releases, Init(workers), steps);
            && WorkersOnly(more) && Valid(releases, s, more) && DoAll(releases, s, more).flags.busy == {}
  {
    hide Init, Inv, Valid, DoAll, NeverEarly, WorkersOnly, AtRest;
    HandOverIsSafe(releases, workers, steps);
    var s := DoAll(releases, Init(workers), steps);
    assert QueueBounded(s) by { InvBounds(s); }
    WorkersStay(releases, workers, steps);
    more := WorkersFinish(releases, s);
    WorkersAreNeverEarly(releases, s, more);
    RunKeepsInv(releases, s, more);
    RestIsIdle(DoAll(releases, s, more));
  }

  lemma {:induction false} WorkersExit(releases: bool, s: State, k: nat) returns (steps: seq<Step>)
    requires s.pool.shutdown && AtRest(s) && k <= |s.pool.workers|
    requires forall w: nat :: w < k ==> At(s, w, Exited)
    ensures WorkersOnly(steps) && Valid(releases, s, steps)
    ensures var t := DoAll(releases, s, steps);
            && |t.pool.workers| == |s.pool.workers| && (forall w: nat :: w < |t.pool.workers| ==> At(t, w, Exited))
            && t.loop == s.loop && t.books == s.books
    decreases |s.pool.workers| - k
  {
    if k == |s.pool.workers| { return []; }
    assert !Carrying(s.pool.workers[k].stage);
    if At(s, k, Exited) {
      steps := WorkersExit(releases, s, k + 1);
    } else {
      assert At(s, k, Waiting);
      var t := Do(releases, s, Exit(k));
      forall w: nat | w < k + 1 ensures At(t, w, Exited) { assert w < k ==> At(s, w, Exited); }
      var rest := WorkersExit(releases, t, k + 1);
      steps := [Exit(k)] + rest;
      assert steps[1..] == rest;
    }
  }

  lemma {:induction false} JoinRuns(releases: bool, s: State, a: seq<Step>, b: seq<Step>)
    requires Valid(releases, s, a) && Valid(releases, DoAll(releases, s, a), b)
    ensures Valid(releases, s, a + b) && DoAll(releases, s, a + b) == DoAll(releases, DoAll(releases, s, a), b)
    decreases |a|
  {
    hide Enabled, Do;
    if a == [] {
      assert a + b == b;
    } else {
      assert (a + b)[1..] == a[1..] + b;
      JoinRuns(releases, Do(releases, s, a[0]), a[1..], b);
    }
  }

  /** A shutdown can always run to its end: from any point of any run every worker can leave, all tasks that
      wait being taken first. */
  lemma ShutdownCanComplete(releases: bool, workers: nat, steps: seq<Step>) returns (more: seq<Step>)
    requires workers > 0 && Valid(releases, Init(workers), steps)
    ensures var s := DoAll(releases, Init(workers), steps);
            && Enabled(releases, s, Shutdown) && WorkersOnly(more) && Valid(releases, Do(releases, s, Shutdown), more)
            && var t := DoAll(releases, Do(releases, s, Shutdown), more);
               t.loop == s.loop && t.books.built == s.books.built && t.books.rejected == s.books.rejected
               && |t.pool.workers| == workers && (forall w: nat :: w < workers ==> At(t, w, Exited))
  {
    var s := DoAll(releases, Init(workers), steps);
    assert QueueBounded(Init(workers));
    WorkersStay(releases, workers, steps);
    RunKeepsQueue(releases, Init(workers), steps);
    var s1 := Do(releases, s, Shutdown);
    assert QueueBounded(s1) by { StepKeepsQueue(releases, s, Shutdown); }
    hide Init, QueueBounded, Valid, DoAll, Enabled, Do, WorkersOnly, AtRest;
    var first := WorkersFinish(releases, s1);
    WorkersKeep(releases, s1, first);
    var s2 := DoAll(releases, s1, first);
    RunKeepsWorkers(releases, s1, first);
    var rest := WorkersExit(releases, s2, 0);
    JoinRuns(releases, s1, first, rest);
    WorkersOnlyBoth(first, rest);
    more := first + rest;
  }

  lemma WorkersOnlyBoth(a: seq<Step>, b: seq<Step>)
    requires WorkersOnly(a) && WorkersOnly(b)
    ensures WorkersOnly(a + b)
  {
  }

  /** Workers take and finish tasks; they neither build nor refuse any, nor take a shutdown back. */
  lemma {:induction false} WorkersKeep(releases: bool, s: State, steps: seq<Step>)
    requires WorkersOnly(steps) && Valid(releases, s, steps)
    ensures var t := DoAll(releases, s, steps);
            && t.pool.shutdown == s.pool.shutdown && t.books.built == s.books.built && t.books.rejected == s.books.rejected
    decreases |steps|
  {
    hide Enabled, Do;
    if steps != [] {
      assert steps[0] in steps;
      assert forall step :: step in steps[1..] ==> step in steps;
      WorkerStepKeeps(releases, s, steps[0]);
      WorkersKeep(releases, Do(releases, s, steps[0]), steps[1..]);
    }
  }

  lemma WorkerStepKeeps(releases: bool, s: State, step: Step)
    requires Enabled(releases, s, step) && (WorkerMove(step) || step.Pop?)
    ensures var t := Do(releases, s, step);
            && t.pool.shutdown == s.pool.shutdown && t.books.built == s.books.built && t.books.rejected == s.books.rejected
  {
  }

  lemma InvBounds(s: State)
    requires Inv(s)
    ensures QueueBounded(s)
  {
  }

  lemma {:induction false} RunKeepsWorkers(releases: bool, s: State, steps: seq<Step>)
    requires Valid(releases, s, steps)
    ensures |DoAll(releases, s, steps).pool.workers| == |s.pool.workers|
    decreases |steps|
  {
    hide Enabled, Do;
    if steps != [] {
      StepKeepsWorkers(releases, s, steps[0]);
      RunKeepsWorkers(releases, Do(releases, s, steps[0]), steps[1..]);
    }
  }

  lemma StepKeepsWorkers(releases: bool, s: State, step: Step)
    requires Enabled(releases, s, step)
    ensures |Do(releases, s, step).pool.workers| == |s.pool.workers|
  {
  }

  lemma WorkersStay(releases: bool, workers: nat, steps: seq<Step>)
    requires Valid(releases, Init(workers), steps)
    ensures |DoAll(releases, Init(workers), steps).pool.workers| == workers
  {
    assert |Init(workers).pool.workers| == workers;
    hide Init, DoAll, Valid;
    RunKeepsWorkers(releases, Init(workers), steps);
  }

  lemma RestIsIdle(s: State)
    requires Inv(s) && AtRest(s) && (s.loop.Free? || s.loop.Using?)
    ensures s.flags.busy == {}
  {
    forall c ensures c !in s.flags.busy {
      NothingCounts(s.pool.workers, HoldsConn(c));
      assert Holders(s, c) == if c in s.flags.busy then 1 else 0;
    }
  }

  // ── What the invariant gives ──────────────────────────────────────────────────

  /** While the event loop reads, writes or closes a connection nobody else has it, in the queue or in
      a worker; and what a worker has is one connection, open, unused by the loop, that no queued task
      and no other worker has. */
  lemma OneThreadPerTransport(s: State, w: nat, v: nat, k: nat)
    requires Inv(s) && w < |s.pool.workers| && Owning(s.pool.workers[w].stage)
    ensures var c := s.pool.workers[w].task.conn;
            && c in s.flags.busy && c in s.conns.live && c in s.conns.present
            && s.loop != Using(c) && !LoopHolds(s.loop, c)
            && (k < |s.pool.queue| ==> s.pool.queue[k].conn != c)
            && (v < |s.pool.workers| && v != w && Owning(s.pool.workers[v].stage) ==> s.pool.workers[v].task.conn != c)
  {
    var c := s.pool.workers[w].task.conn;
    CountHas(s.pool.workers, w, HoldsConn(c));
    assert Holders(s, c) == if c in s.flags.busy then 1 else 0;
    if k < |s.pool.queue| && s.pool.queue[k].conn == c { CountHas(s.pool.queue, k, OnConn(c)); }
    if v < |s.pool.workers| && v != w && Owning(s.pool.workers[v].stage) && s.pool.workers[v].task.conn == c {
      CountTwo(s.pool.workers, v, w, HoldsConn(c));
    }
  }

  lemma {:induction false} CountTwo<A>(xs: seq<A>, i: nat, j: nat, p: A -> bool)
    requires i < |xs| && j < |xs| && i != j && p(xs[i]) && p(xs[j])
    ensures Count(xs, p) >= 2
  {
    if i == 0 { CountHas(xs[1..], j - 1, p); }
    else if j == 0 { CountHas(xs[1..], i - 1, p); }
    else { CountTwo(xs[1..], i - 1, j - 1, p); }
  }

  /** A busy connection has a holder: the flag is never left set by nobody. */
  lemma BusyHasHolder(s: State, c: nat)
    requires Inv(s) && c in s.flags.busy
    ensures LoopHolds(s.loop, c)
         || (exists k: nat :: k < |s.pool.queue| && s.pool.queue[k].conn == c)
         || (exists w: nat :: w < |s.pool.workers| && Owning(s.pool.workers[w].stage) && s.pool.workers[w].task.conn == c)
  {
    assert Holders(s, c) == 1;
    if Count(s.pool.queue, OnConn(c)) >= 1 { var k := CountFinds(s.pool.queue, OnConn(c)); }
    if Count(s.pool.workers, HoldsConn(c)) >= 1 { var w := CountFinds(s.pool.workers, HoldsConn(c)); }
  }

  /** Neither a close nor an erase ever happens to a connection that someone holds. */
  lemma ClosingSparesHeld(releases: bool, s: State, step: Step, c: nat)
    requires Inv(s) && Enabled(releases, s, step) && Holders(s, c) > 0
    ensures var t := Do(releases, s, step);
            (c in t.conns.live <==> c in s.conns.live) && (c in t.conns.present <==> c in s.conns.present)
  {
    assert Holders(s, c) == if c in s.flags.busy then 1 else 0;
    assert BusyIsLive(s);
    hide Holders, Inv, Do;
    StepConns(releases, s, step);
  }

  /** The three steps that open, close and erase. */
  lemma StepConns(releases: bool, s: State, step: Step)
    requires Enabled(releases, s, step)
    ensures var t := Do(releases, s, step);
            && t.conns.live == (if step.CloseUsed? then s.conns.live - {s.loop.conn}
                                else if step.Accept? then s.conns.live + {step.conn} else s.conns.live)
            && t.conns.present == (if step.Erase? then s.conns.present - {step.conn}
                                   else if step.Accept? then s.conns.present + {step.conn} else s.conns.present)
  {
  }

  /** A close that is put off stays requested until the connection is closed. */
  lemma DeferredCloseIsKept(releases: bool, s: State, c: nat, steps: seq<Step>)
    requires BusyIsLive(s) && Enabled(releases, s, DeferClose(c)) && Valid(releases, Do(releases, s, DeferClose(c)), steps)
    ensures var t := DoAll(releases, Do(releases, s, DeferClose(c)), steps);
            c in t.conns.closeRequested || c !in t.conns.live
  {
    var s1 := Do(releases, s, DeferClose(c));
    assert c in s1.conns.closeRequested && c in s1.conns.known;
    hide Do, Enabled, Valid, DoAll;
    RequestStays(releases, s1, c, steps);
  }

  lemma {:induction false} RequestStays(releases: bool, s: State, c: nat, steps: seq<Step>)
    requires (c in s.conns.closeRequested || c !in s.conns.live) && c in s.conns.known && Valid(releases, s, steps)
    ensures var t := DoAll(releases, s, steps);
            c in t.conns.closeRequested || c !in t.conns.live
    decreases |steps|
  {
    hide Do, Enabled;
    if steps != [] {
      StepKeepsRequest(releases, s, c, steps[0]);
      RequestStays(releases, Do(releases, s, steps[0]), c, steps[1..]);
    }
  }

  lemma StepKeepsRequest(releases: bool, s: State, c: nat, step: Step)
    requires (c in s.conns.closeRequested || c !in s.conns.live) && c in s.conns.known && Enabled(releases, s, step)
    ensures var t := Do(releases, s, step);
            (c in t.conns.closeRequested || c !in t.conns.live) && c in t.conns.known
  {
  }

  /** Whoever clears exec_busy, exec_completed is set when that happens. */
  lemma CompletedBeforeCleared(releases: bool, s: State, step: Step, c: nat)
    requires Inv(s) && Enabled(releases, s, step)
    requires c in s.flags.busy && c !in Do(releases, s, step).flags.busy
    ensures c in Do(releases, s, step).flags.completed
  {
    hide OneOwner, AllAccounted;
    match step {
      case Clear(w) => assert s.pool.workers[w].stage.letGo <==> At(s, w, Marked(true));
      case LetGo(w) => assert At(s, w, Announced);
      case _ =>
    }
  }

  /** The heartbeat check judges a connection's silence only if nothing was handed over since the last
      time it was refreshed. */
  lemma SilenceIsNotJudgedAcrossHandOvers(s: State, c: nat)
    requires Inv(s) && !RefreshHeartbeat(s.flags, c).1
    ensures c !in s.flags.claimedSince
  {
  }

  /** A held connection is never judged; once it is given back, the first check refreshes it and the second
      judges it again. */
  lemma SilenceIsJudgedAgain(f: Flags, c: nat)
    ensures c in f.busy ==> RefreshHeartbeat(f, c).1 && c in RefreshHeartbeat(f, c).0.suspended
    ensures c !in f.busy ==> !RefreshHeartbeat(RefreshHeartbeat(f, c).0, c).1
    ensures c !in f.busy + f.completed + f.suspended ==> !RefreshHeartbeat(f, c).1
  {
  }

  lemma CountOne<A>(xs: seq<A>, p: A -> bool, x: A)
    requires p(x)
    ensures Count(xs, p) == 0 ==> x !in xs
  {
    if x in xs {
      var i :| 0 <= i < |xs| && xs[i] == x;
      CountHas(xs, i, p);
    }
  }

  /** A task is refused or finished at most once, and not both; and it does not run in between. */
  lemma AtMostOneEnd(s: State, t: Task, w: nat)
    requires Inv(s)
    ensures Count(s.books.rejected, Is(t)) + Count(s.books.finished, Is(t)) <= 1
    ensures t in s.books.rejected || t in s.books.finished ==>
              t !in s.pool.queue && (w < |s.pool.workers| && Carrying(s.pool.workers[w].stage) ==> s.pool.workers[w].task != t)
  {
    assert Places(s, t) == if t in s.books.built then 1 else 0;
    CountOne(s.books.rejected, Is(t), t);
    CountOne(s.books.finished, Is(t), t);
    CountOne(s.pool.queue, Is(t), t);
    if w < |s.pool.workers| && Carrying(s.pool.workers[w].stage) && s.pool.workers[w].task == t {
      CountHas(s.pool.workers, w, Carries(t));
    }
  }

  /** After a shutdown, once the workers have left and the loop is not in a hand-off, every task ever
      built was refused once or finished once. */
  lemma ShutdownLosesNothing(s: State, t: Task)
    requires Inv(s) && |s.pool.workers| > 0 && (forall w: nat :: w < |s.pool.workers| ==> At(s, w, Exited))
    requires (s.loop.Free? || s.loop.Using?) && t in s.books.built
    ensures Count(s.books.rejected, Is(t)) + Count(s.books.finished, Is(t)) == 1
  {
    assert At(s, 0, Exited);
    assert Places(s, t) == 1;
    forall w | w in s.pool.workers ensures !Carries(t)(w) {
      var i :| 0 <= i < |s.pool.workers| && s.pool.workers[i] == w;
      assert At(s, i, Exited);
    }
    NothingCounts(s.pool.workers, Carries(t));
  }

  /** A task whose flag is set before its handler started never runs. */
  lemma {:induction false} CancelledNeverRuns(releases: bool, s: State, steps: seq<Step>, id: nat)
    requires Valid(releases, s, steps) && id in s.books.cancelled && id !in s.books.ran
    ensures id !in DoAll(releases, s, steps).books.ran
    decreases |steps|
  {
    hide Enabled, Do;
    if steps != [] {
      CancelSticks(releases, s, steps[0], id);
      CancelledNeverRuns(releases, Do(releases, s, steps[0]), steps[1..], id);
    }
  }

  lemma CancelSticks(releases: bool, s: State, step: Step, id: nat)
    requires Enabled(releases, s, step) && id in s.books.cancelled && id !in s.books.ran
    ensures var b := Do(releases, s, step).books;
            id in b.cancelled && id !in b.ran
  {
  }

  // ── The handler that clears the flags itself ──────────────────────────────────

  /** The event loop is about to touch a connection on which a worker's handler is running. */
  ghost predicate Clash(s: State) {
    s.loop.Using? && exists w: nat :: At(s, w, Running) && s.pool.workers[w].task.conn == s.loop.conn
  }

  lemma InvHasNoClash(s: State)
    requires Inv(s)
    ensures !Clash(s)
  {
    if Clash(s) {
      var w: nat :| At(s, w, Running) && s.pool.workers[w].task.conn == s.loop.conn;
      OneThreadPerTransport(s, w, w, |s.pool.queue|);
    }
  }

  /** Steps that the workers take without the event loop. */
  predicate WorkersOnly(steps: seq<Step>) {
    forall step :: step in steps ==> WorkerMove(step) || step.Pop?
  }

  lemma ClearSteps(releases: bool, s: State, c: nat, w: nat) returns (steps: seq<Step>)
    requires LoopHolds(s.loop, c) && At(s, w, Marked(true)) && s.pool.workers[w].task.conn == c
    ensures WorkersOnly(steps) && Valid(releases, s, steps) && !OneOwner(DoAll(releases, s, steps))
  {
    hide Count;
    var t := Do(releases, s, Clear(w));
    steps := [Clear(w)];
    assert steps[1..] == [];
    assert Valid(releases, t, []) && DoAll(releases, t, []) == t;
    assert Holders(t, c) >= 1 && c !in t.flags.busy;
  }

  /** Whatever led to it, an early claim is harmful: the workers alone, by the one that is still to clear
      the flag, can leave the connection held but free to be used by the loop. */
  lemma EarlyClaimLosesTheFlag(releases: bool, s: State, c: nat) returns (steps: seq<Step>)
    requires Enabled(releases, s, Claim(c)) && Early(s, Claim(c))
    ensures var s1 := Do(releases, s, Claim(c));
            WorkersOnly(steps) && Valid(releases, s1, steps) && !OneOwner(DoAll(releases, s1, steps))
  {
    hide OneOwner;
    var w: nat :| w < |s.pool.workers| && Stale(s.pool.workers[w].stage) && s.pool.workers[w].task.conn == c;
    var s1 := Do(releases, s, Claim(c));
    if At(s1, w, Marked(true)) {
      steps := ClearSteps(releases, s1, c, w);
    } else {
      var s2 := Do(releases, s1, Mark(w));
      var rest := ClearSteps(releases, s2, c, w);
      steps := [Mark(w)] + rest;
      assert steps[1..] == rest;
    }
  }

  /** Wherever the run stands and whatever the workers do next, one owner for each connection. */
  ghost predicate OwnedThroughout(releases: bool, s: State, steps: seq<Step>)
    requires Valid(releases, s, steps)
    decreases |steps|
  {
    && (forall more | WorkersOnly(more) && Valid(releases, s, more) :: OneOwner(DoAll(releases, s, more)))
    && (steps != [] ==> OwnedThroughout(releases, Do(releases, s, steps[0]), steps[1..]))
  }

  lemma {:induction false} WorkersAreNeverEarly(releases: bool, s: State, steps: seq<Step>)
    requires WorkersOnly(steps) && Valid(releases, s, steps)
    ensures NeverEarly(releases, s, steps)
    decreases |steps|
  {
    hide Enabled, Do;
    if steps != [] {
      assert steps[0] in steps;
      assert forall step :: step in steps[1..] ==> step in steps;
      WorkersAreNeverEarly(releases, Do(releases, s, steps[0]), steps[1..]);
    }
  }

  lemma OwnedNow(releases: bool, s: State, more: seq<Step>)
    requires Inv(s) && WorkersOnly(more) && Valid(releases, s, more)
    ensures OneOwner(DoAll(releases, s, more))
  {
    hide OneOwner, Valid, DoAll, NeverEarly, WorkersOnly;
    WorkersAreNeverEarly(releases, s, more);
    RunKeepsInv(releases, s, more);
  }

  lemma EarlyIsNotOwned(releases: bool, s: State, step: Step)
    requires Enabled(releases, s, step) && Early(s, step)
    ensures exists more :: WorkersOnly(more) && Valid(releases, Do(releases, s, step), more)
                           && !OneOwner(DoAll(releases, Do(releases, s, step), more))
  {
    hide Enabled, Do, Valid, DoAll, OneOwner, WorkersOnly;
    assert step == Claim(step.conn);
    var more := EarlyClaimLosesTheFlag(releases, s, step.conn);
  }

  /** From any state with the invariant: a run keeps one owner throughout exactly if no claim in it is
      early. */
  lemma {:induction false} OwnedIffNeverEarly(releases: bool, s: State, steps: seq<Step>)
    requires Inv(s) && Valid(releases, s, steps)
    ensures OwnedThroughout(releases, s, steps) <==> NeverEarly(releases, s, steps)
    decreases |steps|
  {
    hide Inv, Enabled, Do, Early, OneOwner, WorkersOnly;
    forall more | WorkersOnly(more) && Valid(releases, s, more) ensures OneOwner(DoAll(releases, s, more)) {
      OwnedNow(releases, s, more);
    }
    if steps != [] {
      if Early(s, steps[0]) {
        EarlyIsNotOwned(releases, s, steps[0]);
      } else {
        StepKeepsInv(releases, s, steps[0]);
        OwnedIffNeverEarly(releases, Do(releases, s, steps[0]), steps[1..]);
      }
    }
  }

  /** The same of every run from the start, for a handler of either kind. */
  lemma HandOverIsSafeIff(releases: bool, workers: nat, steps: seq<Step>)
    requires Valid(releases, Init(workers), steps)
    ensures OwnedThroughout(releases, Init(workers), steps) <==> NeverEarly(releases, Init(workers), steps)
  {
    hide Inv, Init, Valid, OwnedThroughout, NeverEarly;
    InitHolds(workers);
    OwnedIffNeverEarly(releases, Init(workers), steps);
  }

  ghost predicate AllRunsClashFree(releases: bool) {
    forall workers: nat, steps | Valid(releases, Init(workers), steps) :: !Clash(DoAll(releases, Init(workers), steps))
  }

  lemma Unfold(s: State, step: Step, rest: seq<Step>)
    requires Enabled(true, s, step)
    ensures Valid(true, s, [step] + rest) == Valid(true, Do(true, s, step), rest)
    ensures Valid(true, Do(true, s, step), rest) ==>
              DoAll(true, s, [step] + rest) == DoAll(true, Do(true, s, step), rest)
  {
    hide Enabled, Do;
    assert ([step] + rest)[1..] == rest;
  }

  /** What matters of a state with one connection, numbered 1, and one worker. */
  ghost predicate Looks(s: State, loop: Loop, queue: seq<Task>, worker: Worker, busy: bool, built: nat) {
    && s.loop == loop && s.pool == Pool(queue, [worker], false) && (1 in s.flags.busy <==> busy)
    && 1 in s.conns.live && 1 in s.conns.present && s.books.cancelled == {} && |s.books.built| == built
  }

  /** One operation from its claim to the handler's own release, the worker still being at w. */
  lemma HandOverSteps(s: State, worker: Worker, n: nat)
    requires Looks(s, Free, [], worker, false, n)
    ensures Enabled(true, s, Claim(1))
    ensures var s1 := Do(true, s, Claim(1));
            Enabled(true, s1, Build) &&
            var s2 := Do(true, s1, Build);
            Enabled(true, s2, Enqueue) &&
            Looks(Do(true, s2, Enqueue), Free, [Task(n, 1)], worker, true, n + 1)
  {
    var s1 := Do(true, s, Claim(1));
    assert Looks(s1, Claimed(1), [], worker, true, n);
    var s2 := Do(true, s1, Build);
    assert Looks(s2, Built(Task(n, 1)), [], worker, true, n + 1);
    assert [] + [Task(n, 1)] == [Task(n, 1)];
  }

  lemma TakeSteps(s: State, worker: Worker, task: Task, busy: bool, n: nat)
    requires Looks(s, Free, [task], worker, busy, n) && worker.stage.Waiting?
    ensures Enabled(true, s, Pop(0))
    ensures var s1 := Do(true, s, Pop(0));
            Enabled(true, s1, Start(0)) && Looks(Do(true, s1, Start(0)), Free, [], Worker(Running, task), busy, n)
  {
    var s1 := Do(true, s, Pop(0));
    assert [task][1..] == [];
    assert Looks(s1, Free, [], Worker(Popped, task), busy, n);
  }

  lemma ReleaseSteps(s: State, n: nat, id: nat)
    requires Looks(s, Free, [], Worker(Running, Task(id, 1)), true, n)
    ensures Enabled(true, s, Announce(0))
    ensures var s1 := Do(true, s, Announce(0));
            Enabled(true, s1, LetGo(0)) &&
            Looks(Do(true, s1, LetGo(0)), Free, [], Worker(Returned(true), Task(id, 1)), false, n)
  {
    var s1 := Do(true, s, Announce(0));
    assert Looks(s1, Free, [], Worker(Announced, Task(id, 1)), true, n);
  }

  lemma MarkLooks(s: State, queue: seq<Task>, n: nat, task: Task)
    requires Looks(s, Free, queue, Worker(Returned(true), task), true, n)
    ensures Enabled(true, s, Mark(0)) && Looks(Do(true, s, Mark(0)), Free, queue, Worker(Marked(true), task), true, n)
  {
  }

  lemma ClearLooks(s: State, queue: seq<Task>, n: nat, task: Task)
    requires Looks(s, Free, queue, Worker(Marked(true), task), true, n) && task.conn == 1
    ensures Enabled(true, s, Clear(0)) && Looks(Do(true, s, Clear(0)), Free, queue, Worker(Cleared, task), false, n)
  {
  }

  lemma CloseIpcLooks(s: State, queue: seq<Task>, n: nat, task: Task)
    requires Looks(s, Free, queue, Worker(Cleared, task), false, n)
    ensures Enabled(true, s, CloseIpc(0)) && Looks(Do(true, s, CloseIpc(0)), Free, queue, Worker(Waiting, task), false, n)
  {
  }

  lemma SecondReleaseSteps(s: State, queue: seq<Task>, n: nat, id: nat)
    requires Looks(s, Free, queue, Worker(Returned(true), Task(id, 1)), true, n)
    ensures Enabled(true, s, Mark(0))
    ensures var s1 := Do(true, s, Mark(0));
            Enabled(true, s1, Clear(0)) &&
            var s2 := Do(true, s1, Clear(0));
            Enabled(true, s2, CloseIpc(0)) &&
            Looks(Do(true, s2, CloseIpc(0)), Free, queue, Worker(Waiting, Task(id, 1)), false, n)
  {
    hide Enabled, Do, Looks;
    MarkLooks(s, queue, n, Task(id, 1));
    var s1 := Do(true, s, Mark(0));
    ClearLooks(s1, queue, n, Task(id, 1));
    CloseIpcLooks(Do(true, s1, Clear(0)), queue, n, Task(id, 1));
  }

  lemma FirstLook()
    ensures Enabled(true, Init(1), Accept(1))
    ensures Looks(Do(true, Init(1), Accept(1)), Free, [], Worker(Waiting, Task(0, 0)), false, 0)
  {
    assert Init(1).pool.workers == [Worker(Waiting, Task(0, 0))];
  }

  lemma LastLook(s: State, task: Task, n: nat)
    requires Looks(s, Free, [], Worker(Running, task), false, n) && task.conn == 1
    ensures Enabled(true, s, Use(1)) && Clash(Do(true, s, Use(1)))
  {
    var t := Do(true, s, Use(1));
    assert At(t, 0, Running);
  }

  /** Two operations on one connection; the second is claimed and queued before the worker of the first
      clears the flag once more, so that the loop uses the connection that the second runs on. */
  lemma ReleasingHandlerClashes() returns (steps: seq<Step>)
    ensures Valid(true, Init(1), steps) && Clash(DoAll(true, Init(1), steps))
  {
    hide Valid, DoAll, Enabled, Do, Init, Looks, Clash;
    var s0 := Init(1);
    FirstLook();
    var s1 := Do(true, s0, Accept(1));
    HandOverSteps(s1, Worker(Waiting, Task(0, 0)), 0);
    var s2 := Do(true, s1, Claim(1));
    var s3 := Do(true, s2, Build);
    var s4 := Do(true, s3, Enqueue);
    TakeSteps(s4, Worker(Waiting, Task(0, 0)), Task(0, 1), true, 1);
    var s5 := Do(true, s4, Pop(0));
    var s6 := Do(true, s5, Start(0));
    ReleaseSteps(s6, 1, 0);
    var s7 := Do(true, s6, Announce(0));
    var s8 := Do(true, s7, LetGo(0));
    HandOverSteps(s8, Worker(Returned(true), Task(0, 1)), 1);
    var s9 := Do(true, s8, Claim(1));
    var s10 := Do(true, s9, Build);
    var s11 := Do(true, s10, Enqueue);
    SecondReleaseSteps(s11, [Task(1, 1)], 2, 0);
    var s12 := Do(true, s11, Mark(0));
    var s13 := Do(true, s12, Clear(0));
    var s14 := Do(true, s13, CloseIpc(0));
    TakeSteps(s14, Worker(Waiting, Task(0, 1)), Task(1, 1), false, 2);
    var s15 := Do(true, s14, Pop(0));
    var s16 := Do(true, s15, Start(0));
    LastLook(s16, Task(1, 1), 2);
    var s17 := Do(true, s16, Use(1));
    steps := [];
    NoSteps(s17);
    Unfold(s16, Use(1), steps); steps := [Use(1)] + steps;
    Unfold(s15, Start(0), steps); steps := [Start(0)] + steps;
    Unfold(s14, Pop(0), steps); steps := [Pop(0)] + steps;
    Unfold(s13, CloseIpc(0), steps); steps := [CloseIpc(0)] + steps;
    Unfold(s12, Clear(0), steps); steps := [Clear(0)] + steps;
    Unfold(s11, Mark(0), steps); steps := [Mark(0)] + steps;
    Unfold(s10, Enqueue, steps); steps := [Enqueue] + steps;
    Unfold(s9, Build, steps); steps := [Build] + steps;
    Unfold(s8, Claim(1), steps); steps := [Claim(1)] + steps;
    Unfold(s7, LetGo(0), steps); steps := [LetGo(0)] + steps;
    Unfold(s6, Announce(0), steps); steps := [Announce(0)] + steps;
    Unfold(s5, Start(0), steps); steps := [Start(0)] + steps;
    Unfold(s4, Pop(0), steps); steps := [Pop(0)] + steps;
    Unfold(s3, Enqueue, steps); steps := [Enqueue] + steps;
    Unfold(s2, Build, steps); steps := [Build] + steps;
    Unfold(s1, Claim(1), steps); steps := [Claim(1)] + steps;
    Unfold(s0, Accept(1), steps); steps := [Accept(1)] + steps;
  }

  lemma NoSteps(s: State)
    ensures Valid(true, s, []) && DoAll(true, s, []) == s
  {
  }

  /** One thread at a time on every transport, in all runs: exactly if the handler leaves the flags to
      the pool. */
  lemma SafeIffPoolReleases(releases: bool)
    ensures AllRunsClashFree(releases) <==> !releases
  {
    hide Valid, DoAll, Init, Clash, Inv, NobodyStale;
    if releases {
      var steps := ReleasingHandlerClashes();
    } else {
      forall workers: nat, steps | Valid(false, Init(workers), steps) ensures !Clash(DoAll(false, Init(workers), steps)) {
        InitNobodyStale(workers);
        PoolOnlyIsNeverEarly(Init(workers), steps);
        HandOverIsSafe(false, workers, steps);
        InvHasNoClash(DoAll(false, Init(workers), steps));
      }
    }
  }

  lemma InitNobodyStale(workers: nat)
    ensures NobodyStale(Init(workers))
  {
  }
}
