/** A pool of worker threads: one mutex, one condition variable, and workers that retire when idle. */
module ThreadPool {
  type ThreadId = nat
  type Task = nat

  /** The fields the mutex protects. */
  datatype Pool = Pool(quit: bool, current: nat, idle: nat, tasks: seq<Task>, finished: seq<ThreadId>,
                       threads: set<ThreadId>)

  const EMPTY: Pool := Pool(false, 0, 0, [], [], {})

  /** What submitters, workers and the destructor do, one critical section, task, join or return at a time. */
  datatype Step =
    | Submit(task: Task, t: ThreadId)
    | Enter(t: ThreadId)
    | Wake(t: ThreadId)
    | ReapJoin(t: ThreadId)
    | ReapDone(t: ThreadId)
    | RunTask(t: ThreadId)
    | Return(t: ThreadId)
    | SetQuit
    | DtorJoin(t: ThreadId)

  // ----- what each critical section does to the fields

  predicate Spawns(p: Pool, max: nat) {
    p.idle == 0 && p.current < max
  }

  /** `submit`: queue the task, and create worker `t` if nobody is idle and there is room for one more. */
  function Submitted(p: Pool, max: nat, task: Task, t: ThreadId): Pool {
    var q := p.(tasks := p.tasks + [task]);
    if Spawns(p, max) then q.(current := p.current + 1, threads := p.threads + {t}) else q
  }

  /** The predicate the workers wait for. */
  predicate Wanted(p: Pool) {
    p.quit || p.tasks != []
  }

  datatype Leave = Take(task: Task) | Quit | Retire

  /** What a worker does when its wait ends. */
  function Outcome(p: Pool): Leave {
    if p.tasks != [] then Take(p.tasks[0]) else if p.quit then Quit else Retire
  }

  function Left(p: Pool): Pool
    requires p.idle > 0 && p.current > 0
  {
    match Outcome(p)
    case Take(_) => p.(idle := p.idle - 1, tasks := p.tasks[1..])
    case _ => p.(idle := p.idle - 1, current := p.current - 1)
  }

  /** Joining the longest-finished worker. */
  function Reaped(p: Pool): Pool
    requires p.finished != []
  {
    p.(finished := p.finished[1..], threads := p.threads - {p.finished[0]})
  }

  predicate Ready(p: Pool, s: Step) {
    (s.Wake? ==> p.idle > 0 && p.current > 0) && (s.ReapJoin? ==> p.finished != [])
  }

  /** What a step does to the fields; running a task, ending, and joining in the destructor touch none. */
  function PoolStep(p: Pool, max: nat, s: Step): Pool
    requires Ready(p, s)
  {
    match s
    case Submit(task, t) => Submitted(p, max, task, t)
    case Enter(_) => p.(idle := p.idle + 1)
    case Wake(_) => Left(p)
    case ReapJoin(_) => Reaped(p)
    case ReapDone(t) => p.(finished := p.finished + [t])
    case SetQuit => p.(quit := true)
    case _ => p
  }

  /** A worker that retires has joined all that finished before it, and is itself the only one to be joined. */
  ghost function Retired(p: Pool, t: ThreadId): Pool {
    p.(finished := [t], threads := p.threads - set id | id in p.finished)
  }

  class ThreadPool {
    var quit: bool
    var currentThreads: nat
    var idleThreads: nat
    const maxThreads: nat
    var tasks: seq<Task>
    var finishedThreadIDs: seq<ThreadId>
    var threads: set<ThreadId>

    ghost function View(): Pool
      reads this
    {
      Pool(quit, currentThreads, idleThreads, tasks, finishedThreadIDs, threads)
    }

    constructor (maxThreads: nat)
      ensures View() == EMPTY && this.maxThreads == maxThreads
    {
      quit, currentThreads, idleThreads := false, 0, 0;
      this.maxThreads := maxThreads;
      tasks, finishedThreadIDs, threads := [], [], {};
    }

    /** The locked part of `submit`; `t` is the identifier a new thread gets. */
    method Submit(task: Task, t: ThreadId) returns (spawned: bool)
      requires !quit && t !in threads
      modifies this
      ensures View() == Submitted(old(View()), maxThreads, task, t)
      ensures spawned == Spawns(old(View()), maxThreads)
    {
      tasks := tasks + [task];
      spawned := false;
      if idleThreads > 0 {
        // notify_one: the waiting worker may wake
      } else if currentThreads < maxThreads {
        threads := threads + {t};
        currentThreads := currentThreads + 1;
        spawned := true;
      }
    }

    /** A worker locks the mutex and starts to wait. */
    method BeginWait()
      modifies this
      ensures View() == old(View()).(idle := old(View()).idle + 1)
    {
      idleThreads := idleThreads + 1;
    }

    /** A worker's wait has ended: `hasTimedout` is the negation of the predicate, evaluated under the mutex. */
    method EndWait(hasTimedout: bool) returns (leave: Leave)
      requires hasTimedout <==> !Wanted(View())
      requires idleThreads > 0 && currentThreads > 0
      modifies this
      ensures leave == Outcome(old(View())) && View() == Left(old(View()))
    {
      idleThreads := idleThreads - 1;
      if tasks == [] {
        if quit {
          currentThreads := currentThreads - 1;
          return Quit;
        }
        if hasTimedout {
          currentThreads := currentThreads - 1;
          return Retire;
        }
      }
      leave := Take(tasks[0]);
      tasks := tasks[1..];
    }

    /** One round of joining finished workers; the join itself has returned. */
    method ReapOne()
      requires finishedThreadIDs != [] && finishedThreadIDs[0] in threads
      modifies `finishedThreadIDs, `threads
      ensures View() == Reaped(old(View()))
    {
      var id := finishedThreadIDs[0];
      finishedThreadIDs := finishedThreadIDs[1..];
      threads := threads - {id};
    }

    /** Joins every finished worker. As each is recorded, and listed once, its thread is found every time. */
    method JoinFinishedThreads()
      requires NoDuplicates(finishedThreadIDs) && forall id :: id in finishedThreadIDs ==> id in threads
      modifies `finishedThreadIDs, `threads
      ensures finishedThreadIDs == []
      ensures forall id :: id in threads <==> id in old(threads) && id !in old(finishedThreadIDs)
    {
      ghost var k := 0;
      while finishedThreadIDs != []
        invariant k <= |old(finishedThreadIDs)| && finishedThreadIDs == old(finishedThreadIDs)[k..]
        invariant forall id :: id in threads <==> id in old(threads) && id !in old(finishedThreadIDs)[..k]
        decreases |finishedThreadIDs|
      {
        assert finishedThreadIDs[0] == old(finishedThreadIDs)[k];
        assert old(finishedThreadIDs)[..k + 1] == old(finishedThreadIDs)[..k] + [finishedThreadIDs[0]];
        ReapOne();
        k := k + 1;
      }
      assert old(finishedThreadIDs)[..k] == old(finishedThreadIDs);
    }

    /** The rest of a retiring worker's critical section: join the others, then leave its own identifier. */
    method RetireWorker(self: ThreadId)
      requires NoDuplicates(finishedThreadIDs) && forall id :: id in finishedThreadIDs ==> id in threads
      modifies `finishedThreadIDs, `threads
      ensures View() == Retired(old(View()), self)
    {
      JoinFinishedThreads();
      AddFinished(self);
    }

    method AddFinished(self: ThreadId)
      modifies `finishedThreadIDs
      ensures finishedThreadIDs == old(finishedThreadIDs) + [self]
    {
      finishedThreadIDs := finishedThreadIDs + [self];
    }

    /** The locked part of the destructor. */
    method SetQuit()
      modifies this
      ensures View() == old(View()).(quit := true)
    {
      quit := true;
    }
  }

  // ----- all the threads together

  /** Where a worker is. `Locking` wants the mutex at the top of its loop, `Reaping` holds it while it joins
      finished workers, `Returning` has left the mutex for good, `Ended` can be joined. `Running` names the
      position of its task in the order of taking. */
  datatype Phase = Locking | Waiting | Reaping | Running(k: nat) | Returning | Ended

  datatype Mutex = Free | Held(t: ThreadId)

  /** The pool, its threads, the mutex, and the history: tasks as submitted and as taken, who took each,
      the positions of the tasks run, and counts of threads created and joined. `waited` are the threads
      the destructor has joined. */
  datatype World = World(pool: Pool, phase: map<ThreadId, Phase>, mutex: Mutex,
                         submitted: seq<Task>, taken: seq<Task>, takers: seq<ThreadId>, log: seq<nat>,
                         created: nat, joins: nat, waited: set<ThreadId>)

  const START: World := World(EMPTY, map[], Free, [], [], [], [], 0, 0, {})

  predicate In(phase: map<ThreadId, Phase>, t: ThreadId, p: Phase) {
    t in phase && phase[t] == p
  }

  /** When a step can happen. A wait ends when its predicate holds or its time is over, so it always may;
      joining a thread returns only once that thread has ended; `submit` asserts that the pool is not quitting. */
  predicate Enabled(w: World, s: Step) {
    match s
    case Submit(_, t) => w.mutex == Free && !w.pool.quit && t !in w.phase
    case Enter(t) => w.mutex == Free && In(w.phase, t, Locking)
    case Wake(t) => w.mutex == Free && In(w.phase, t, Waiting) && w.pool.idle > 0 && w.pool.current > 0
    case ReapJoin(t) => w.mutex == Held(t) && w.pool.finished != [] && In(w.phase, w.pool.finished[0], Ended)
    case ReapDone(t) => w.mutex == Held(t) && w.pool.finished == []
    case RunTask(t) => t in w.phase && w.phase[t].Running?
    case Return(t) => In(w.phase, t, Returning)
    case SetQuit => w.mutex == Free && !w.pool.quit
    case DtorJoin(t) => w.pool.quit && In(w.phase, t, Ended) && t !in w.waited
  }

  function Do(w: World, max: nat, s: Step): World
    requires Enabled(w, s)
  {
    var p := PoolStep(w.pool, max, s);
    match s
    case Submit(task, t) =>
      var w1 := w.(pool := p, submitted := w.submitted + [task]);
      if Spawns(w.pool, max) then w1.(phase := w.phase[t := Locking], created := w.created + 1) else w1
    case Enter(t) => w.(pool := p, phase := w.phase[t := Waiting])
    case Wake(t) =>
      var w1 := w.(pool := p);
      (match Outcome(w.pool)
       case Take(task) =>
         w1.(phase := w.phase[t := Running(|w.taken|)], taken := w.taken + [task], takers := w.takers + [t])
       case Quit => w1.(phase := w.phase[t := Returning])
       case Retire => w1.(phase := w.phase[t := Reaping], mutex := Held(t)))
    case ReapJoin(t) =>
      w.(pool := p, phase := w.phase - {w.pool.finished[0]}, joins := w.joins + 1)
    case ReapDone(t) =>
      w.(pool := p, phase := w.phase[t := Returning], mutex := Free)
    case RunTask(t) => w.(log := w.log + [w.phase[t].k], phase := w.phase[t := Locking])
    case Return(t) => w.(phase := w.phase[t := Ended])
    case SetQuit => w.(pool := p)
    case DtorJoin(t) => w.(waited := w.waited + {t}, joins := w.joins + 1)
  }

  // ----- the invariant

  function WaitingThreads(phase: map<ThreadId, Phase>): set<ThreadId> {
    set t | t in phase && phase[t] == Waiting
  }

  predicate IsLive(p: Phase) {
    p == Locking || p == Waiting || p.Running?
  }

  function LiveThreads(phase: map<ThreadId, Phase>): set<ThreadId> {
    set t | t in phase && IsLive(phase[t])
  }

  predicate IsOver(p: Phase) {
    p == Returning || p == Ended
  }

  ghost predicate NoDuplicates<T>(s: seq<T>) {
    forall i, j :: 0 <= i < j < |s| ==> s[i] != s[j]
  }

  /** The mutex is held across steps only by a worker joining others. */
  ghost predicate Locked(phase: map<ThreadId, Phase>, mutex: Mutex) {
    && (mutex.Held? ==> In(phase, mutex.t, Reaping))
    && forall t :: In(phase, t, Reaping) ==> mutex == Held(t)
  }

  /** While a worker joins others there is nothing to do and no quit. */
  ghost predicate CalmReaping(w: World) {
    w.mutex.Held? ==> w.pool.tasks == [] && !w.pool.quit
  }

  /** The counters count: waiting workers are idle, live ones are current, and there are never too many. */
  ghost predicate Counted(w: World, max: nat) {
    && w.pool.threads == w.phase.Keys
    && w.pool.idle == |WaitingThreads(w.phase)| && w.pool.current == |LiveThreads(w.phase)| <= max
  }

  /** The finished queue holds workers that need nothing more from the pool, each once; while the pool is
      not quitting, it holds all of them. */
  ghost predicate Retirees(phase: map<ThreadId, Phase>, finished: seq<ThreadId>, quit: bool) {
    && NoDuplicates(finished)
    && (forall t :: t in finished ==> t in phase && IsOver(phase[t]))
    && (!quit ==> forall t :: t in phase && IsOver(phase[t]) ==> t in finished)
  }

  /** Each task taken has run or is being run, once, by the worker that took it. */
  ghost predicate RunOnce(phase: map<ThreadId, Phase>, takers: seq<ThreadId>, log: seq<nat>) {
    && NoDuplicates(log)
    && (forall k :: k in log ==> k < |takers|)
    && (forall t :: t in phase && phase[t].Running? ==>
          phase[t].k < |takers| && takers[phase[t].k] == t && phase[t].k !in log)
    && (forall k :: 0 <= k < |takers| && k !in log ==> In(phase, takers[k], Running(k)))
  }

  /** Tasks leave in the order they came. */
  ghost predicate InOrder(w: World) {
    w.submitted == w.taken + w.pool.tasks && |w.takers| == |w.taken|
  }

  /** A queued task has a worker to take it. */
  ghost predicate Served(w: World) {
    w.pool.tasks != [] ==> LiveThreads(w.phase) != {}
  }

  /** Every thread created is joined or still to be joined; the destructor joins only ended ones. */
  ghost predicate Ledger(phase: map<ThreadId, Phase>, quit: bool, waited: set<ThreadId>, created: nat, joins: nat) {
    && (forall t :: t in waited ==> In(phase, t, Ended))
    && (!quit ==> waited == {})
    && created == joins + |phase.Keys - waited|
  }

  ghost predicate Inv(w: World, max: nat) {
    && Locked(w.phase, w.mutex) && CalmReaping(w) && Counted(w, max)
    && Retirees(w.phase, w.pool.finished, w.pool.quit) && RunOnce(w.phase, w.takers, w.log) && InOrder(w)
    && (max >= 1 ==> Served(w)) && Ledger(w.phase, w.pool.quit, w.waited, w.created, w.joins)
  }

  lemma InvStart(max: nat)
    ensures Inv(START, max)
  {
    assert WaitingThreads(map[]) == {} && LiveThreads(map[]) == {};
  }

  // ----- how the thread sets change

  lemma SetPhase(phase: map<ThreadId, Phase>, t: ThreadId, p: Phase)
    ensures var q := phase[t := p];
            && WaitingThreads(q) == (if p == Waiting then WaitingThreads(phase) + {t} else WaitingThreads(phase) - {t})
            && LiveThreads(q) == (if IsLive(p) then LiveThreads(phase) + {t} else LiveThreads(phase) - {t})
            && q.Keys == phase.Keys + {t}
  {
  }

  lemma CountPhase(phase: map<ThreadId, Phase>, t: ThreadId, p: Phase)
    ensures var q := phase[t := p];
            && |WaitingThreads(q)| == |WaitingThreads(phase)| + One(p == Waiting) - One(In(phase, t, Waiting))
            && |LiveThreads(q)| == |LiveThreads(phase)| + One(IsLive(p)) - One(t in phase && IsLive(phase[t]))
            && q.Keys == phase.Keys + {t}
  {
    SetPhase(phase, t, p);
    Toggle(WaitingThreads(phase), WaitingThreads(phase[t := p]), t);
    Toggle(LiveThreads(phase), LiveThreads(phase[t := p]), t);
  }

  function One(b: bool): int {
    if b then 1 else 0
  }

  lemma Toggle(s: set<ThreadId>, s': set<ThreadId>, t: ThreadId)
    requires s' == s + {t} || s' == s - {t}
    ensures |s'| == |s| + One(t in s') - One(t in s)
  {
    if t in s && t in s' {
      assert s == s';
    } else if t !in s && t !in s' {
      assert s == s';
    } else if t in s {
      assert s == s' + {t};
    }
  }

  lemma ForgetPhase(phase: map<ThreadId, Phase>, t: ThreadId)
    requires t in phase && !IsLive(phase[t])
    ensures var q := phase - {t};
            && WaitingThreads(q) == WaitingThreads(phase) && LiveThreads(q) == LiveThreads(phase)
            && q.Keys == phase.Keys - {t}
  {
  }

  /** Changing between phases that are not `Running` leaves the tasks alone. */
  lemma RunOnceSet(phase: map<ThreadId, Phase>, takers: seq<ThreadId>, log: seq<nat>, t: ThreadId, p: Phase)
    requires RunOnce(phase, takers, log) && !p.Running? && (t in phase ==> !phase[t].Running?)
    ensures RunOnce(phase[t := p], takers, log)
  {
    var q := phase[t := p];
    forall k | 0 <= k < |takers| && k !in log ensures In(q, takers[k], Running(k)) {
      assert In(phase, takers[k], Running(k));
    }
  }

  lemma RunOnceTake(phase: map<ThreadId, Phase>, takers: seq<ThreadId>, log: seq<nat>, t: ThreadId)
    requires RunOnce(phase, takers, log) && In(phase, t, Waiting)
    ensures RunOnce(phase[t := Running(|takers|)], takers + [t], log)
  {
    var q := phase[t := Running(|takers|)];
    forall k | 0 <= k < |takers| + 1 && k !in log ensures In(q, (takers + [t])[k], Running(k)) {
      if k < |takers| {
        assert In(phase, takers[k], Running(k));
      }
    }
  }

  lemma RunOnceRan(phase: map<ThreadId, Phase>, takers: seq<ThreadId>, log: seq<nat>, t: ThreadId)
    requires RunOnce(phase, takers, log) && t in phase && phase[t].Running?
    ensures RunOnce(phase[t := Locking], takers, log + [phase[t].k])
  {
    var q, log' := phase[t := Locking], log + [phase[t].k];
    forall k | 0 <= k < |takers| && k !in log' ensures In(q, takers[k], Running(k)) {
      assert k !in log;
      assert In(phase, takers[k], Running(k));
    }
  }

  lemma RunOnceForget(phase: map<ThreadId, Phase>, takers: seq<ThreadId>, log: seq<nat>, t: ThreadId)
    requires RunOnce(phase, takers, log) && In(phase, t, Ended)
    ensures RunOnce(phase - {t}, takers, log)
  {
    forall k | 0 <= k < |takers| && k !in log ensures In(phase - {t}, takers[k], Running(k)) {
      assert In(phase, takers[k], Running(k));
    }
  }

  // ----- every step keeps every part of the invariant

  lemma LockedStep(w: World, max: nat, s: Step)
    requires Enabled(w, s) && Locked(w.phase, w.mutex)
    requires Retirees(w.phase, w.pool.finished, w.pool.quit)
    ensures Locked(Do(w, max, s).phase, Do(w, max, s).mutex)
  {
  }

  lemma CalmStep(w: World, max: nat, s: Step)
    requires Enabled(w, s) && CalmReaping(w)
    ensures CalmReaping(Do(w, max, s))
  {
  }

  lemma RunOnceStep(w: World, max: nat, s: Step)
    requires Enabled(w, s) && Locked(w.phase, w.mutex) && RunOnce(w.phase, w.takers, w.log) && InOrder(w)
    ensures RunOnce(Do(w, max, s).phase, Do(w, max, s).takers, Do(w, max, s).log)
    ensures InOrder(Do(w, max, s))
  {
    match s
    case Submit(_, t) => RunOnceSet(w.phase, w.takers, w.log, t, Locking);
    case Enter(t) => RunOnceSet(w.phase, w.takers, w.log, t, Waiting);
    case Wake(t) =>
      RunOnceTake(w.phase, w.takers, w.log, t);
      RunOnceSet(w.phase, w.takers, w.log, t, Returning);
      RunOnceSet(w.phase, w.takers, w.log, t, Reaping);
    case ReapJoin(_) => RunOnceForget(w.phase, w.takers, w.log, w.pool.finished[0]);
    case ReapDone(t) => RunOnceSet(w.phase, w.takers, w.log, t, Returning);
    case RunTask(t) => RunOnceRan(w.phase, w.takers, w.log, t);
    case Return(t) => RunOnceSet(w.phase, w.takers, w.log, t, Ended);
    case SetQuit =>
    case DtorJoin(_) =>
  }

  lemma RetireesSet(phase: map<ThreadId, Phase>, finished: seq<ThreadId>, quit: bool, t: ThreadId, p: Phase)
    requires Retirees(phase, finished, quit)
    requires if t in phase && IsOver(phase[t]) then IsOver(p) else quit || !IsOver(p)
    ensures Retirees(phase[t := p], finished, quit)
  {
  }

  lemma RetireesAdd(phase: map<ThreadId, Phase>, finished: seq<ThreadId>, quit: bool, t: ThreadId)
    requires Retirees(phase, finished, quit) && t in phase && !IsOver(phase[t])
    ensures Retirees(phase[t := Returning], finished + [t], quit)
  {
  }

  lemma RetireesDrop(phase: map<ThreadId, Phase>, finished: seq<ThreadId>, quit: bool)
    requires Retirees(phase, finished, quit) && finished != []
    ensures Retirees(phase - {finished[0]}, finished[1..], quit)
  {
    assert finished == [finished[0]] + finished[1..];
  }

  lemma RetireesStep(w: World, max: nat, s: Step)
    requires Enabled(w, s) && Locked(w.phase, w.mutex) && CalmReaping(w)
    requires Retirees(w.phase, w.pool.finished, w.pool.quit)
    ensures var w' := Do(w, max, s); Retirees(w'.phase, w'.pool.finished, w'.pool.quit)
  {
    var finished, quit := w.pool.finished, w.pool.quit;
    match s
    case Submit(_, t) => RetireesSet(w.phase, finished, quit, t, Locking);
    case Enter(t) => RetireesSet(w.phase, finished, quit, t, Waiting);
    case Wake(t) =>
      match Outcome(w.pool) {
        case Take(_) => RetireesSet(w.phase, finished, quit, t, Running(|w.taken|));
        case Quit => RetireesSet(w.phase, finished, quit, t, Returning);
        case Retire => RetireesSet(w.phase, finished, quit, t, Reaping);
      }
    case ReapJoin(_) => RetireesDrop(w.phase, finished, quit);
    case ReapDone(t) => RetireesAdd(w.phase, finished, quit, t);
    case RunTask(t) => RetireesSet(w.phase, finished, quit, t, Locking);
    case Return(t) => RetireesSet(w.phase, finished, quit, t, Ended);
    case SetQuit =>
    case DtorJoin(_) =>
  }

  lemma CountedWake(w: World, max: nat, t: ThreadId)
    requires Enabled(w, Wake(t)) && Counted(w, max)
    ensures Counted(Do(w, max, Wake(t)), max)
  {
    match Outcome(w.pool)
    case Take(_) => CountPhase(w.phase, t, Running(|w.taken|));
    case Quit => CountPhase(w.phase, t, Returning);
    case Retire => CountPhase(w.phase, t, Reaping);
  }

  lemma CountedSubmit(w: World, max: nat, s: Step)
    requires s.Submit? && Enabled(w, s) && Counted(w, max)
    ensures Counted(Do(w, max, s), max)
  {
    CountPhase(w.phase, s.t, Locking);
  }

  lemma CountedMove(w: World, max: nat, s: Step)
    requires s.Enter? || s.ReapDone? || s.RunTask? || s.Return?
    requires Enabled(w, s) && Counted(w, max) && Locked(w.phase, w.mutex)
    ensures Counted(Do(w, max, s), max)
  {
    var p := match s case Enter(_) => Waiting case ReapDone(_) => Returning case RunTask(_) => Locking case _ => Ended;
    CountPhase(w.phase, s.t, p);
  }

  lemma CountedStep(w: World, max: nat, s: Step)
    requires Enabled(w, s) && Counted(w, max) && Locked(w.phase, w.mutex)
    ensures Counted(Do(w, max, s), max)
  {
    match s
    case Submit(_, t) => CountedSubmit(w, max, s);
    case Wake(t) => CountedWake(w, max, t);
    case ReapJoin(t) => ForgetPhase(w.phase, w.pool.finished[0]);
    case SetQuit =>
    case DtorJoin(t) =>
    case _ => CountedMove(w, max, s);
  }

  /** An idle worker, or a full complement of workers, is there to take a task just submitted. */
  lemma ServedSubmit(w: World, max: nat)
    requires Counted(w, max) && max >= 1 && !Spawns(w.pool, max)
    ensures LiveThreads(w.phase) != {}
  {
    if w.pool.idle > 0 {
      var t :| t in WaitingThreads(w.phase);
      assert t in LiveThreads(w.phase);
    }
  }

  lemma ServedStep(w: World, max: nat, s: Step)
    requires Enabled(w, s) && Counted(w, max) && max >= 1 && Served(w) && CalmReaping(w) && Locked(w.phase, w.mutex)
    ensures Served(Do(w, max, s))
  {
    match s
    case Submit(_, t) =>
      SetPhase(w.phase, t, Locking);
      if !Spawns(w.pool, max) { ServedSubmit(w, max); }
    case Enter(t) => SetPhase(w.phase, t, Waiting);
    case Wake(t) => SetPhase(w.phase, t, Running(|w.taken|));
    case ReapJoin(t) => ForgetPhase(w.phase, w.pool.finished[0]);
    case ReapDone(t) => SetPhase(w.phase, t, Returning);
    case RunTask(t) => SetPhase(w.phase, t, Locking);
    case Return(t) => SetPhase(w.phase, t, Ended);
    case SetQuit =>
    case DtorJoin(t) =>
  }

  /** A thread the destructor has not joined may change phase. */
  lemma LedgerSet(phase: map<ThreadId, Phase>, quit: bool, waited: set<ThreadId>, created: nat, joins: nat,
        t: ThreadId, p: Phase)
    requires Ledger(phase, quit, waited, created, joins) && t in phase && t !in waited
    ensures Ledger(phase[t := p], quit, waited, created, joins)
  {
    assert phase[t := p].Keys == phase.Keys;
  }

  lemma LedgerSpawn(phase: map<ThreadId, Phase>, quit: bool, waited: set<ThreadId>, created: nat, joins: nat,
        t: ThreadId)
    requires Ledger(phase, quit, waited, created, joins) && t !in phase
    ensures Ledger(phase[t := Locking], quit, waited, created + 1, joins)
  {
    assert phase[t := Locking].Keys - waited == (phase.Keys - waited) + {t};
  }

  lemma LedgerReap(phase: map<ThreadId, Phase>, waited: set<ThreadId>, created: nat, joins: nat, x: ThreadId)
    requires Ledger(phase, false, waited, created, joins) && x in phase
    ensures Ledger(phase - {x}, false, waited, created, joins + 1)
  {
    assert (phase - {x}).Keys - waited == (phase.Keys - waited) - {x};
  }

  lemma LedgerWait(phase: map<ThreadId, Phase>, waited: set<ThreadId>, created: nat, joins: nat, t: ThreadId)
    requires Ledger(phase, true, waited, created, joins) && In(phase, t, Ended) && t !in waited
    ensures Ledger(phase, true, waited + {t}, created, joins + 1)
  {
    assert phase.Keys - (waited + {t}) == (phase.Keys - waited) - {t};
  }

  lemma LedgerWake(w: World, max: nat, t: ThreadId)
    requires Enabled(w, Wake(t)) && Ledger(w.phase, w.pool.quit, w.waited, w.created, w.joins)
    ensures var w' := Do(w, max, Wake(t)); Ledger(w'.phase, w'.pool.quit, w'.waited, w'.created, w'.joins)
  {
    assert t !in w.waited;
    var p := match Outcome(w.pool) case Take(_) => Running(|w.taken|) case Quit => Returning case Retire => Reaping;
    LedgerSet(w.phase, w.pool.quit, w.waited, w.created, w.joins, t, p);
  }

  /** Steps that move one worker on create and join nobody. */
  lemma LedgerMove(w: World, max: nat, s: Step)
    requires s.Enter? || s.ReapDone? || s.RunTask? || s.Return?
    requires Enabled(w, s) && Ledger(w.phase, w.pool.quit, w.waited, w.created, w.joins) && Locked(w.phase, w.mutex)
    ensures var w' := Do(w, max, s); Ledger(w'.phase, w'.pool.quit, w'.waited, w'.created, w'.joins)
  {
    var p := match s case Enter(_) => Waiting case ReapDone(_) => Returning case RunTask(_) => Locking case _ => Ended;
    LedgerSet(w.phase, w.pool.quit, w.waited, w.created, w.joins, s.t, p);
  }

  lemma LedgerSubmit(w: World, max: nat, s: Step)
    requires s.Submit? && Enabled(w, s) && Ledger(w.phase, w.pool.quit, w.waited, w.created, w.joins)
    ensures var w' := Do(w, max, s); Ledger(w'.phase, w'.pool.quit, w'.waited, w'.created, w'.joins)
  {
    LedgerSpawn(w.phase, w.pool.quit, w.waited, w.created, w.joins, s.t);
  }

  lemma LedgerReapJoin(w: World, max: nat, s: Step)
    requires s.ReapJoin? && Enabled(w, s) && Ledger(w.phase, w.pool.quit, w.waited, w.created, w.joins)
    requires CalmReaping(w) && Locked(w.phase, w.mutex)
    ensures var w' := Do(w, max, s); Ledger(w'.phase, w'.pool.quit, w'.waited, w'.created, w'.joins)
  {
    LedgerReap(w.phase, w.waited, w.created, w.joins, w.pool.finished[0]);
  }

  lemma LedgerStep(w: World, max: nat, s: Step)
    requires Enabled(w, s) && Ledger(w.phase, w.pool.quit, w.waited, w.created, w.joins)
    requires CalmReaping(w) && Locked(w.phase, w.mutex)
    ensures var w' := Do(w, max, s); Ledger(w'.phase, w'.pool.quit, w'.waited, w'.created, w'.joins)
  {
    match s
    case Submit(_, t) => LedgerSubmit(w, max, s);
    case Wake(t) => LedgerWake(w, max, t);
    case ReapJoin(_) => LedgerReapJoin(w, max, s);
    case SetQuit =>
    case DtorJoin(t) => LedgerWait(w.phase, w.waited, w.created, w.joins, t);
    case _ => LedgerMove(w, max, s);
  }

  lemma InvStep(w: World, max: nat, s: Step)
    requires Inv(w, max) && Enabled(w, s)
    ensures Inv(Do(w, max, s), max)
  {
    LockedStep(w, max, s);
    CalmStep(w, max, s);
    CountedStep(w, max, s);
    RetireesStep(w, max, s);
    RunOnceStep(w, max, s);
    if max >= 1 { ServedStep(w, max, s); }
    LedgerStep(w, max, s);
  }

  // ----- runs

  /** The state after the steps `ss`, each possible when it happens. */
  ghost predicate IsRun(w: World, max: nat, ss: seq<Step>)
    decreases |ss|
  {
    |ss| > 0 ==> Enabled(w, ss[0]) && IsRun(Do(w, max, ss[0]), max, ss[1..])
  }

  ghost function After(w: World, max: nat, ss: seq<Step>): World
    requires IsRun(w, max, ss)
    decreases |ss|
  {
    if |ss| == 0 then w else After(Do(w, max, ss[0]), max, ss[1..])
  }

  lemma {:induction false} InvRun(w: World, max: nat, ss: seq<Step>)
    requires Inv(w, max) && IsRun(w, max, ss)
    ensures Inv(After(w, max, ss), max)
    decreases |ss|
  {
    if |ss| > 0 {
      InvStep(w, max, ss[0]);
      InvRun(Do(w, max, ss[0]), max, ss[1..]);
    }
  }

  ghost predicate Reachable(w: World, max: nat) {
    exists ss :: IsRun(START, max, ss) && After(START, max, ss) == w
  }

  lemma InvReachable(w: World, max: nat)
    requires Reachable(w, max)
    ensures Inv(w, max)
  {
    var ss :| IsRun(START, max, ss) && After(START, max, ss) == w;
    InvStart(max);
    InvRun(START, max, ss);
  }

  /** In every reachable state the counters are in range, and a worker about to leave its wait finds them positive. */
  lemma CountersInRange(w: World, max: nat)
    requires Reachable(w, max)
    ensures w.pool.idle <= w.pool.current <= max
    ensures forall t :: In(w.phase, t, Waiting) ==> w.pool.idle > 0 && w.pool.current > 0
  {
    InvReachable(w, max);
    SubsetSize(WaitingThreads(w.phase), LiveThreads(w.phase));
    forall t | In(w.phase, t, Waiting) ensures w.pool.idle > 0 && w.pool.current > 0 {
      assert t in WaitingThreads(w.phase) && t in LiveThreads(w.phase);
    }
  }

  lemma {:induction false} SubsetSize(a: set<ThreadId>, b: set<ThreadId>)
    requires a <= b
    ensures |a| <= |b|
  {
    if a != {} {
      var x :| x in a;
      SubsetSize(a - {x}, b - {x});
    }
  }

  /** Tasks are taken in the order submitted, and no task is run twice. */
  lemma FirstInFirstOut(w: World, max: nat)
    requires Reachable(w, max)
    ensures w.submitted == w.taken + w.pool.tasks
    ensures NoDuplicates(w.log) && forall k :: k in w.log ==> k < |w.taken|
  {
    InvReachable(w, max);
  }

  /** The threads the pool records are those that live, that join others, or that wait to be joined; and a worker
      that joins never waits for itself, nor for a thread that still needs the mutex. */
  lemma ThreadLedger(w: World, max: nat)
    requires Reachable(w, max)
    ensures w.pool.threads == w.phase.Keys
    ensures forall t :: t in w.pool.finished ==> t in w.phase && IsOver(w.phase[t]) && w.mutex != Held(t)
    ensures !w.pool.quit ==> forall t :: t in w.phase ==>
              IsLive(w.phase[t]) || w.mutex == Held(t) || t in w.pool.finished
  {
    InvReachable(w, max);
  }

  /** Once the pool is quitting, nothing changes the set of threads the destructor walks through. */
  lemma ThreadsFixedOnceQuit(w: World, max: nat, s: Step)
    requires Reachable(w, max) && w.pool.quit && Enabled(w, s)
    ensures Do(w, max, s).pool.threads == w.pool.threads && Do(w, max, s).pool.quit
  {
    InvReachable(w, max);
  }

  // ----- progress

  /** The step a worker takes next, given that it can get the mutex. */
  function NextOf(w: World, t: ThreadId): Step
    requires t in w.phase
  {
    match w.phase[t]
    case Locking => Enter(t)
    case Waiting => Wake(t)
    case Reaping => if w.pool.finished == [] then ReapDone(t) else ReapJoin(t)
    case Running(_) => RunTask(t)
    case Returning => Return(t)
    case Ended => DtorJoin(t)
  }

  /** With a task queued, the pool can move: some live worker's next step is possible. */
  lemma QueuedTaskProgress(w: World, max: nat) returns (t: ThreadId)
    requires max >= 1 && Reachable(w, max) && w.pool.tasks != []
    ensures t in w.phase && IsLive(w.phase[t]) && Enabled(w, NextOf(w, t))
  {
    InvReachable(w, max);
    CountersInRange(w, max);
    t :| t in LiveThreads(w.phase);
  }

  lemma {:induction false} RunAppend(w: World, max: nat, ss: seq<Step>, s: Step)
    requires IsRun(w, max, ss) && Enabled(After(w, max, ss), s)
    ensures IsRun(w, max, ss + [s]) && After(w, max, ss + [s]) == Do(After(w, max, ss), max, s)
    decreases |ss|
  {
    if ss == [] {
      assert (ss + [s])[1..] == [];
    } else {
      RunAppend(Do(w, max, ss[0]), max, ss[1..], s);
      assert (ss + [s])[1..] == ss[1..] + [s];
    }
  }

  lemma ReachableStep(w: World, max: nat, s: Step)
    requires Reachable(w, max) && Enabled(w, s)
    ensures Reachable(Do(w, max, s), max)
  {
    var ss :| IsRun(START, max, ss) && After(START, max, ss) == w;
    RunAppend(START, max, ss, s);
  }

  lemma StartReachable(max: nat)
    ensures Reachable(START, max)
  {
    var ss: seq<Step> := [];
    assert IsRun(START, max, ss) && After(START, max, ss) == START;
  }

  /** Quick submits share one idle worker: `k` tasks may be queued with a single worker, whatever the maximum. */
  lemma {:induction false} OneForAll(max: nat, k: nat) returns (w: World)
    requires max >= 1 && k >= 1
    ensures Reachable(w, max) && |w.pool.tasks| == k && w.phase == map[1 := Waiting]
    ensures w.mutex == Free && !w.pool.quit && w.pool.idle == 1 == w.pool.current && w.taken == []
  {
    if k == 1 {
      StartReachable(max);
      ReachableStep(START, max, Submit(0, 1));
      var v := Do(START, max, Submit(0, 1));
      ReachableStep(v, max, Enter(1));
      w := Do(v, max, Enter(1));
    } else {
      var v := OneForAll(max, k - 1);
      ReachableStep(v, max, Submit(0, 2));
      w := Do(v, max, Submit(0, 2));
    }
  }

  /** With `k` tasks queued, one live worker is guaranteed, and no more than one. */
  lemma GuaranteedWorkers(max: nat, k: nat, m: nat)
    requires max >= 1 && k >= 1
    ensures (forall w :: Reachable(w, max) && |w.pool.tasks| == k ==> |LiveThreads(w.phase)| >= m) <==> m <= 1
  {
    if m <= 1 {
      forall w | Reachable(w, max) && |w.pool.tasks| == k ensures |LiveThreads(w.phase)| >= m {
        InvReachable(w, max);
      }
    } else {
      var w := OneForAll(max, k);
      assert LiveThreads(w.phase) == {1};
    }
  }

  /** So the tasks queued may all have to wait for the one that runs, even below the maximum of workers; a task
      that waits for a later one is then never done. */
  lemma QueueBehindOneTask(max: nat, k: nat) returns (w: World)
    requires max >= 1
    ensures Reachable(w, max) && |w.pool.tasks| == k && w.pool.current == 1
    ensures In(w.phase, 1, Running(0)) && forall s :: Enabled(w, s) && !s.Submit? && !s.SetQuit? ==> s == RunTask(1)
  {
    var v := OneForAll(max, k + 1);
    ReachableStep(v, max, Wake(1));
    w := Do(v, max, Wake(1));
  }

  /** A worker joining others is never stuck: it can finish, or the thread it waits for has ended, or that
      thread can end without the mutex. */
  lemma ReaperProgress(w: World, max: nat, t: ThreadId)
    requires Reachable(w, max) && w.mutex == Held(t)
    ensures t in w.phase
    ensures Enabled(w, NextOf(w, t)) || (w.pool.finished != [] && Enabled(w, Return(w.pool.finished[0])))
  {
    hide Reachable, Counted, RunOnce, InOrder, Served, Ledger, NoDuplicates;
    InvReachable(w, max);
    if w.pool.finished != [] {
      assert w.pool.finished[0] in w.pool.finished;
    }
  }

  /** What submitting comes to: a thread is created exactly when no worker waits and there are fewer live workers than
      the maximum; nothing else happens to the threads. */
  lemma SubmitDecides(w: World, max: nat, task: Task, t: ThreadId)
    requires Reachable(w, max) && Enabled(w, Submit(task, t))
    ensures var v := Do(w, max, Submit(task, t));
            && v.pool.tasks == w.pool.tasks + [task] && t !in w.pool.threads
            && (if WaitingThreads(w.phase) == {} && |LiveThreads(w.phase)| < max
                then v.pool.threads == w.pool.threads + {t} && v.phase == w.phase[t := Locking]
                     && v.pool.current == |LiveThreads(w.phase)| + 1
                else v.pool.threads == w.pool.threads && v.phase == w.phase && v.pool.current == w.pool.current)
  {
    hide Reachable, RunOnce, InOrder, Served, Ledger, Retirees, CalmReaping, WaitingThreads, LiveThreads;
    InvReachable(w, max);
  }

  /** What the end of a wait comes to: the oldest task is taken if there is one; a worker of a quitting pool leaves, and
      another one retires, with the mutex kept to join those before it. */
  lemma WakeDecides(w: World, max: nat, t: ThreadId)
    requires Reachable(w, max) && Enabled(w, Wake(t))
    ensures var v := Do(w, max, Wake(t));
            && v.pool.threads == w.pool.threads && v.pool.idle == w.pool.idle - 1
            && (if w.pool.tasks != []
                then v.phase == w.phase[t := Running(|w.taken|)] && v.taken == w.taken + [w.pool.tasks[0]]
                     && v.pool.tasks == w.pool.tasks[1..] && v.pool.current == w.pool.current && v.mutex == Free
                else v.pool.tasks == [] && v.pool.current == w.pool.current - 1
                     && if w.pool.quit then v.phase == w.phase[t := Returning] && v.mutex == Free
                        else v.phase == w.phase[t := Reaping] && v.mutex == Held(t))
  {
    hide Reachable;
  }

  ghost function RunningThreads(phase: map<ThreadId, Phase>): set<ThreadId> {
    set t | t in phase && phase[t].Running?
  }

  /** Submits that find everybody busy bring up any number of workers that the maximum allows. */
  lemma {:induction false} AllBusy(max: nat, m: nat) returns (w: World)
    requires m <= max
    ensures Reachable(w, max) && w.mutex == Free && !w.pool.quit && w.pool.tasks == []
    ensures w.pool.idle == 0 && w.pool.current == m == |w.taken|
    ensures forall t :: t in w.phase <==> 1 <= t <= m
    ensures forall t :: t in w.phase ==> w.phase[t].Running?
  {
    hide Reachable;
    if m == 0 {
      StartReachable(max);
      w := START;
    } else {
      var v := AllBusy(max, m - 1);
      ReachableStep(v, max, Submit(0, m));
      v := Do(v, max, Submit(0, m));
      ReachableStep(v, max, Enter(m));
      v := Do(v, max, Enter(m));
      ReachableStep(v, max, Wake(m));
      w := Do(v, max, Wake(m));
    }
  }

  /** So as many tasks can run at once as the maximum says, and no more. */
  lemma RunAtOnceIff(max: nat, m: nat)
    ensures (exists w :: Reachable(w, max) && |RunningThreads(w.phase)| == m) <==> m <= max
  {
    hide Reachable;
    if m <= max {
      var w := AllBusy(max, m);
      AllRunning(w, max);
      assert Reachable(w, max) && |RunningThreads(w.phase)| == m;
    }
    forall w | Reachable(w, max) ensures |RunningThreads(w.phase)| <= max {
      RunningAreLive(w, max);
    }
  }

  lemma AllRunning(w: World, max: nat)
    requires Reachable(w, max) && forall t :: t in w.phase ==> w.phase[t].Running?
    ensures |RunningThreads(w.phase)| == w.pool.current
  {
    hide Reachable, RunOnce, InOrder, Served, Ledger, Retirees, CalmReaping, Locked;
    InvReachable(w, max);
    assert RunningThreads(w.phase) == LiveThreads(w.phase);
  }

  lemma RunningAreLive(w: World, max: nat)
    requires Reachable(w, max)
    ensures |RunningThreads(w.phase)| <= max
  {
    hide Reachable, RunOnce, InOrder, Served, Ledger, Retirees, CalmReaping, Locked;
    InvReachable(w, max);
    assert RunningThreads(w.phase) <= LiveThreads(w.phase);
    SubsetSize(RunningThreads(w.phase), LiveThreads(w.phase));
  }

  /** The destructor has joined every thread. */
  ghost predicate Destroyed(w: World) {
    w.pool.quit && w.waited == w.phase.Keys
  }

  /** Until then, each thread it has still to join can make its next step, or be joined: none is ever stuck. */
  lemma DestructorProgress(w: World, max: nat, t: ThreadId)
    requires Reachable(w, max) && w.pool.quit && t in w.phase && t !in w.waited
    ensures Enabled(w, NextOf(w, t))
  {
    InvReachable(w, max);
    CountersInRange(w, max);
  }

  /** A step that can happen when the destructor walks through the threads in `order`, blocked on the first of them
      that it has not joined. */
  ghost predicate EnabledInOrder(w: World, order: seq<ThreadId>, s: Step) {
    Enabled(w, s) && (s.DtorJoin? ==> exists i :: 0 <= i < |order| && order[i] == s.t && JoinedBefore(w, order, i))
  }

  ghost predicate JoinedBefore(w: World, order: seq<ThreadId>, i: nat)
    requires i <= |order|
  {
    forall j :: 0 <= j < i ==> order[j] in w.waited
  }

  lemma FirstNotJoined(w: World, order: seq<ThreadId>) returns (i: nat)
    ensures i <= |order| && JoinedBefore(w, order, i) && (i < |order| ==> order[i] !in w.waited)
  {
    i := 0;
    while i < |order| && order[i] in w.waited
      invariant i <= |order| && JoinedBefore(w, order, i)
    {
      i := i + 1;
    }
  }

  /** The map has all threads that the destructor is to join. */
  lemma ThreadsToJoin(w: World, max: nat)
    requires Reachable(w, max)
    ensures w.pool.threads == w.phase.Keys && w.waited <= w.phase.Keys
  {
    hide Reachable, Counted, Retirees, RunOnce, InOrder, Served, Locked, CalmReaping;
    ThreadLedger(w, max);
    InvReachable(w, max);
  }

  /** In whatever order the map lists its threads, a destructor that cannot go on, with no worker that can, is done. */
  lemma DestructorInOrder(w: World, max: nat, order: seq<ThreadId>)
    requires Reachable(w, max) && w.pool.quit && forall t :: t in order <==> t in w.pool.threads
    requires forall s :: !EnabledInOrder(w, order, s)
    ensures Destroyed(w)
  {
    hide Reachable, Enabled, EnabledInOrder;
    ThreadsToJoin(w, max);
    var i := FirstNotJoined(w, order);
    if i < |order| {
      FirstCanMove(w, max, order, i);
      assert false;
    }
  }

  /** The first thread not joined can make a step, or be joined. */
  lemma FirstCanMove(w: World, max: nat, order: seq<ThreadId>, i: nat)
    requires Reachable(w, max) && w.pool.quit && i < |order| && order[i] in w.phase && order[i] !in w.waited
    requires JoinedBefore(w, order, i)
    ensures EnabledInOrder(w, order, NextOf(w, order[i]))
  {
    hide Reachable, Enabled;
    DestructorProgress(w, max, order[i]);
  }

  lemma AllLogged(w: World)
    requires RunOnce(w.phase, w.takers, w.log) && forall t :: t in w.phase ==> w.phase[t] == Ended
    ensures forall k :: 0 <= k < |w.takers| ==> k in w.log
  {
    assert forall k :: 0 <= k < |w.takers| && k !in w.log ==> In(w.phase, w.takers[k], Running(k));
  }

  /** When the destructor is through, every task submitted has been taken in order and run exactly once,
      and every thread created has been joined exactly once. */
  lemma DestroyedMeansDrained(w: World, max: nat)
    requires max >= 1 && Reachable(w, max) && Destroyed(w)
    ensures w.pool.tasks == [] && w.taken == w.submitted
    ensures NoDuplicates(w.log) && forall k :: k in w.log <==> 0 <= k < |w.submitted|
    ensures w.created == w.joins
  {
    InvReachable(w, max);
    forall t ensures t !in LiveThreads(w.phase) {
      assert t in w.waited ==> In(w.phase, t, Ended);
    }
    AllLogged(w);
    assert w.phase.Keys - w.waited == {};
  }

  // ----- the destructor ends

  /** How many more phases a quitting worker goes through. */
  function Rank(p: Phase): nat {
    match p
    case Ended => 0
    case Returning => 1
    case Reaping => 1
    case Waiting => 2
    case Locking => 3
    case Running(_) => 4
  }

  ghost function AtLeast(phase: map<ThreadId, Phase>, r: nat): set<ThreadId> {
    set t | t in phase && Rank(phase[t]) >= r
  }

  ghost function Weight(phase: map<ThreadId, Phase>): nat {
    |AtLeast(phase, 1)| + |AtLeast(phase, 2)| + |AtLeast(phase, 3)| + |AtLeast(phase, 4)|
  }

  lemma RankAt(phase: map<ThreadId, Phase>, t: ThreadId, p: Phase, r: nat)
    requires t in phase
    ensures |AtLeast(phase[t := p], r)| == |AtLeast(phase, r)| + One(Rank(p) >= r) - One(Rank(phase[t]) >= r)
  {
    var a, b := AtLeast(phase, r), AtLeast(phase[t := p], r);
    assert if Rank(p) >= r then b == a + {t} else b == a - {t};
    Toggle(a, b, t);
  }

  lemma WeightStep(phase: map<ThreadId, Phase>, t: ThreadId, p: Phase)
    requires t in phase
    ensures Weight(phase[t := p]) == Weight(phase) + Rank(p) - Rank(phase[t])
  {
    RankAt(phase, t, p, 1);
    RankAt(phase, t, p, 2);
    RankAt(phase, t, p, 3);
    RankAt(phase, t, p, 4);
  }

  ghost function Remaining(w: World): nat {
    3 * |w.pool.tasks| + Weight(w.phase) + |w.phase.Keys - w.waited|
  }

  lemma QuitWakeDecreases(w: World, max: nat, t: ThreadId)
    requires w.pool.quit && Enabled(w, Wake(t))
    ensures Do(w, max, Wake(t)).pool.quit && Remaining(Do(w, max, Wake(t))) < Remaining(w)
  {
    var p := if w.pool.tasks != [] then Running(|w.taken|) else Returning;
    WeightStep(w.phase, t, p);
    SameKeys(w.phase, t, p);
  }

  /** Every step of a quitting pool uses up some of what remains. */
  lemma QuitStepDecreases(w: World, max: nat, s: Step)
    requires Locked(w.phase, w.mutex) && CalmReaping(w) && w.pool.quit && Enabled(w, s)
    ensures Do(w, max, s).pool.quit && Remaining(Do(w, max, s)) < Remaining(w)
  {
    match s
    case Wake(t) => QuitWakeDecreases(w, max, t);
    case DtorJoin(t) => assert w.phase.Keys - (w.waited + {t}) == (w.phase.Keys - w.waited) - {t};
    case Enter(t) => MoveDown(w.phase, w.waited, t, Waiting);
    case RunTask(t) => MoveDown(w.phase, w.waited, t, Locking);
    case Return(t) => MoveDown(w.phase, w.waited, t, Ended);
    case _ =>
  }

  /** A worker that moves to a later phase uses up some of what remains. */
  lemma MoveDown(phase: map<ThreadId, Phase>, waited: set<ThreadId>, t: ThreadId, p: Phase)
    requires t in phase && Rank(p) < Rank(phase[t])
    ensures Weight(phase[t := p]) < Weight(phase) && |phase[t := p].Keys - waited| == |phase.Keys - waited|
  {
    WeightStep(phase, t, p);
    SameKeys(phase, t, p);
  }

  lemma SameKeys(phase: map<ThreadId, Phase>, t: ThreadId, p: Phase)
    requires t in phase
    ensures phase[t := p].Keys == phase.Keys
  {
  }

  /** However the threads are scheduled, a quitting pool makes only so many steps. */
  lemma {:induction false} DestructorEnds(w: World, max: nat, ss: seq<Step>)
    requires Inv(w, max) && w.pool.quit && IsRun(w, max, ss)
    ensures |ss| <= Remaining(w)
    decreases |ss|
  {
    if |ss| > 0 {
      QuitStepDecreases(w, max, ss[0]);
      InvStep(w, max, ss[0]);
      DestructorEnds(Do(w, max, ss[0]), max, ss[1..]);
    }
  }

  // ----- one worker is needed

  /** A queued task always has a worker exactly when the pool may have one. */
  lemma ServedIffThreads(max: nat)
    ensures max >= 1 <==> forall w :: Reachable(w, max) ==> Served(w)
  {
    if max >= 1 {
      forall w | Reachable(w, max) ensures Served(w) { InvReachable(w, max); }
    } else {
      var w := Do(START, 0, Submit(7, 1));
      var ss := [Submit(7, 1)];
      assert ss[1..] == [] && IsRun(START, 0, ss) && After(START, 0, ss) == w;
      assert Reachable(w, 0) && !Served(w);
    }
  }

  // ----- the class and the world

  /** Under the mutex, no step but the last changes what joining all of them comes to. */
  lemma RetiringStep(w: World, max: nat, t: ThreadId, s: Step)
    requires Inv(w, max) && w.mutex == Held(t) && Enabled(w, s) && s != ReapDone(t)
    ensures Do(w, max, s).mutex == Held(t) && Retired(Do(w, max, s).pool, t) == Retired(w.pool, t)
  {
    hide Counted, RunOnce, InOrder, Served, Ledger, NoDuplicates;
    if s.ReapJoin? {
      assert w.pool.finished == [w.pool.finished[0]] + w.pool.finished[1..];
    }
  }

  lemma RetiringEnds(w: World, max: nat, t: ThreadId)
    requires Enabled(w, ReapDone(t))
    ensures Do(w, max, ReapDone(t)).pool == Retired(w.pool, t)
  {
    assert w.pool.threads - (set id | id in w.pool.finished) == w.pool.threads;
  }

  /** Joining under the mutex, while other threads run tasks and end, comes to one uninterrupted `RetireWorker`. */
  lemma {:induction false} RetireIsAtomic(w: World, max: nat, t: ThreadId, ss: seq<Step>)
    requires Inv(w, max) && w.mutex == Held(t) && IsRun(w, max, ss)
    requires |ss| > 0 && ss[|ss| - 1] == ReapDone(t) && forall i :: 0 <= i < |ss| - 1 ==> ss[i] != ReapDone(t)
    ensures After(w, max, ss).pool == Retired(w.pool, t)
    decreases |ss|
  {
    hide Inv, Retired, Do, Enabled;
    if |ss| == 1 {
      RetiringEnds(w, max, t);
      assert ss[1..] == [];
    } else {
      RetiringStep(w, max, t, ss[0]);
      InvStep(w, max, ss[0]);
      RetireIsAtomic(Do(w, max, ss[0]), max, t, ss[1..]);
    }
  }

  /** The fields follow a step of the world. */
  method Play(pool: ThreadPool, ghost w: World, s: Step)
    requires Inv(w, pool.maxThreads) && Enabled(w, s) && pool.View() == w.pool
    modifies pool
    ensures pool.View() == Do(w, pool.maxThreads, s).pool
  {
    hide RunOnce, InOrder, Served, Ledger, NoDuplicates, LiveThreads, WaitingThreads;
    match s
    case Submit(task, t) => var _ := pool.Submit(task, t);
    case Enter(_) => pool.BeginWait();
    case Wake(_) => var _ := pool.EndWait(!pool.quit && pool.tasks == []);
    case ReapJoin(_) => pool.ReapOne();
    case ReapDone(t) => pool.AddFinished(t);
    case SetQuit => pool.SetQuit();
    case _ =>
  }

  /** The methods of the pool, called as the steps of any run demand, leave the fields the world has after that run. */
  method Replay(pool: ThreadPool, ss: seq<Step>)
    requires pool.View() == EMPTY && IsRun(START, pool.maxThreads, ss)
    modifies pool
    ensures pool.View() == After(START, pool.maxThreads, ss).pool
  {
    hide Inv, Do, Enabled;
    ghost var w := START;
    InvStart(pool.maxThreads);
    for i := 0 to |ss|
      invariant Inv(w, pool.maxThreads) && pool.View() == w.pool && IsRun(w, pool.maxThreads, ss[i..])
      invariant After(w, pool.maxThreads, ss[i..]) == After(START, pool.maxThreads, ss)
    {
      Play(pool, w, ss[i]);
      InvStep(w, pool.maxThreads, ss[i]);
      w := Do(w, pool.maxThreads, ss[i]);
      assert ss[i..][1..] == ss[i + 1..];
    }
  }
}
