/**
  The per-event-loop connection pool of src/db/pool.py.

  `PoolModule` holds the three module globals and has one method for every stretch of
  `init_pool` and `close_pool` that runs between two awaits.  Each method is tied to a
  function on values, and the functions are the steps of a state machine in which any number
  of tasks on any number of loops interleave at their awaits.
*/
module PoolProtocol {
  import opened Sums
  import opened Wrappers

  type LoopId = nat
  type PoolId = nat
  type TaskId = nat

  // ---------------------------------------------------------------- module state

  /** An asyncio lock: taken at once only when it is free and nobody queues for it. */
  datatype Lock = Lock(held: bool, waiters: seq<TaskId>)

  datatype Globals = Globals(pools: map<LoopId, PoolId>, locks: map<LoopId, Lock>, last: Option<PoolId>) {
    function LockOf(l: LoopId): Lock {
      if l in locks then locks[l] else Lock(false, [])
    }

    function WithLock(l: LoopId, k: Lock): Globals {
      this.(locks := locks[l := k])
    }

    function Release(l: LoopId): Globals {
      WithLock(l, LockOf(l).(held := false))
    }
  }

  /** Where a task stands; the second half of each line is what it awaits or how it ended. */
  datatype Pc =
    | InitStart
    | InitQueued                          // awaits the lock
    | Creating                            // awaits create_pool, lock held
    | Migrating(pool: PoolId)             // awaits the schema check, lock held
    | InitReturned(result: PoolId)
    | InitRaised
    | CloseStart
    | CloseQueued                         // awaits the lock
    | Closing(closing: PoolId)            // awaits pool.close(), lock released
    | CloseReturned(taken: Option<PoolId>)
    | CloseRaised(failed: PoolId)
  {
    predicate InRegion() { Creating? || Migrating? }

    predicate Queued() { InitQueued? || CloseQueued? }

    predicate Finished() { InitReturned? || InitRaised? || CloseReturned? || CloseRaised? }

    /** The pool this task's `close_pool` has removed from the registry. */
    function Taken(): Option<PoolId> {
      match this
      case Closing(p) => Some(p)
      case CloseReturned(p) => p
      case CloseRaised(p) => Some(p)
      case _ => None
    }

    /** An upper bound on the events the task still takes part in. */
    function Rank(): nat {
      match this
      case InitStart => 4
      case InitQueued => 3
      case Creating => 2
      case Migrating(_) => 1
      case CloseStart => 3
      case CloseQueued => 2
      case Closing(_) => 1
      case _ => 0
    }
  }

  // ---------------------------------------------------------------- the stretches between awaits

  /** Lines 81-93, with the lock held: hand back the registered pool, fail, or start creating. */
  function InitLocked(g: Globals, l: LoopId, configOk: bool): (Globals, Pc) {
    if l in g.pools then (g.Release(l), InitReturned(g.pools[l]))
    else if !configOk then (g.Release(l), InitRaised)
    else (g, Creating)
  }

  function InitEnter(g: Globals, t: TaskId, l: LoopId, configOk: bool): (Globals, Pc) {
    if l in g.pools then
      (g.(last := Some(g.pools[l])), InitReturned(g.pools[l]))
    else
      var k := g.LockOf(l);
      if !k.held && k.waiters == [] then
        InitLocked(g.WithLock(l, Lock(true, [])), l, configOk)
      else
        (g.WithLock(l, k.(waiters := k.waiters + [t])), InitQueued)
  }

  function CloseLocked(g: Globals, l: LoopId): (Globals, Pc) {
    var g' := g.(pools := g.pools - {l}).Release(l);
    if l in g.pools then (g', Closing(g.pools[l])) else (g', CloseReturned(None))
  }

  function CloseEnter(g: Globals, t: TaskId, l: LoopId): (Globals, Pc) {
    var k := g.LockOf(l);
    if !k.held && k.waiters == [] then
      CloseLocked(g.WithLock(l, Lock(true, [])), l)
    else
      (g.WithLock(l, k.(waiters := k.waiters + [t])), CloseQueued)
  }

  /** A released lock goes to the longest waiting task, which runs on from its await. */
  function TakeAsFirst(g: Globals, l: LoopId): Globals
    requires g.LockOf(l).waiters != []
  {
    g.WithLock(l, Lock(true, g.LockOf(l).waiters[1..]))
  }

  function CreateReturned(g: Globals, l: LoopId, p: PoolId): (Globals, Pc) {
    (g.(pools := g.pools[l := p], last := Some(p)), Migrating(p))
  }

  function CloseEnded(g: Globals, p: PoolId): (Globals, Pc) {
    (if g.last == Some(p) then g.(last := None) else g, CloseReturned(Some(p)))
  }

  /** `get_pool`, called on a running loop or outside of any. */
  function GetPool(g: Globals, loop: Option<LoopId>): Option<PoolId> {
    if loop.Some? && loop.value in g.pools then Some(g.pools[loop.value]) else g.last
  }

  class PoolModule {
    var pools: map<LoopId, PoolId>
    var locks: map<LoopId, Lock>
    var lastPool: Option<PoolId>

    ghost function View(): Globals
      reads this
    {
      Globals(pools, locks, lastPool)
    }

    constructor ()
      ensures View() == Globals(map[], map[], None)
    {
      pools, locks, lastPool := map[], map[], None;
    }

    method GetPoolLock(l: LoopId) returns (k: Lock)
      modifies this`locks
      ensures k == old(View()).LockOf(l)
      ensures View() == old(View()).WithLock(l, k)
    {
      if l !in locks {
        locks := locks[l := Lock(false, [])];
      }
      k := locks[l];
    }

    method RunInitLocked(l: LoopId, configOk: bool) returns (next: Pc)
      modifies this
      ensures (View(), next) == InitLocked(old(View()), l, configOk)
    {
      if l in pools {
        next := InitReturned(pools[l]);
        ReleaseLock(l);
      } else if !configOk {
        next := InitRaised;
        ReleaseLock(l);
      } else {
        next := Creating;
      }
    }

    method ReleaseLock(l: LoopId)
      modifies this`locks
      ensures View() == old(View()).Release(l)
    {
      var k := GetPoolLock(l);
      locks := locks[l := k.(held := false)];
    }

    method EnterInit(t: TaskId, l: LoopId, configOk: bool) returns (next: Pc)
      modifies this
      ensures (View(), next) == InitEnter(old(View()), t, l, configOk)
    {
      if l in pools {
        lastPool := Some(pools[l]);
        return InitReturned(pools[l]);
      }
      var k := GetPoolLock(l);
      if k.held || k.waiters != [] {
        locks := locks[l := k.(waiters := k.waiters + [t])];
        assert View() == old(View()).WithLock(l, k.(waiters := k.waiters + [t]));
        return InitQueued;
      }
      locks := locks[l := Lock(true, [])];
      assert View() == old(View()).WithLock(l, Lock(true, []));
      next := RunInitLocked(l, configOk);
    }

    method WakeInit(l: LoopId, configOk: bool) returns (next: Pc)
      requires View().LockOf(l).waiters != []
      modifies this
      ensures (View(), next) == InitLocked(TakeAsFirst(old(View()), l), l, configOk)
    {
      locks := locks[l := Lock(true, locks[l].waiters[1..])];
      next := RunInitLocked(l, configOk);
    }

    method ResumeCreated(l: LoopId, p: PoolId) returns (next: Pc)
      modifies this
      ensures (View(), next) == CreateReturned(old(View()), l, p)
    {
      pools := pools[l := p];
      lastPool := Some(p);
      next := Migrating(p);
    }

    method RunCloseLocked(l: LoopId) returns (next: Pc)
      modifies this
      ensures (View(), next) == CloseLocked(old(View()), l)
    {
      next := if l in pools then Closing(pools[l]) else CloseReturned(None);
      pools := pools - {l};
      ReleaseLock(l);
    }

    method EnterClose(t: TaskId, l: LoopId) returns (next: Pc)
      modifies this
      ensures (View(), next) == CloseEnter(old(View()), t, l)
    {
      var k := GetPoolLock(l);
      if k.held || k.waiters != [] {
        locks := locks[l := k.(waiters := k.waiters + [t])];
        assert View() == old(View()).WithLock(l, k.(waiters := k.waiters + [t]));
        return CloseQueued;
      }
      locks := locks[l := Lock(true, [])];
      assert View() == old(View()).WithLock(l, Lock(true, []));
      next := RunCloseLocked(l);
    }

    method WakeClose(l: LoopId) returns (next: Pc)
      requires View().LockOf(l).waiters != []
      modifies this
      ensures (View(), next) == CloseLocked(TakeAsFirst(old(View()), l), l)
    {
      locks := locks[l := Lock(true, locks[l].waiters[1..])];
      next := RunCloseLocked(l);
    }

    method ResumeClosed(p: PoolId) returns (next: Pc)
      modifies this
      ensures (View(), next) == CloseEnded(old(View()), p)
    {
      if lastPool == Some(p) {
        lastPool := None;
      }
      next := CloseReturned(Some(p));
    }

    /** None stands for the RuntimeError of line 150. */
    method LookUpPool(loop: Option<LoopId>) returns (r: Option<PoolId>)
      ensures r == GetPool(View(), loop)
    {
      if loop.Some? {
        if loop.value in pools {
          return Some(pools[loop.value]);
        }
      }
      r := lastPool;
    }
  }

  // ---------------------------------------------------------------- interleavings

  datatype Task = Task(loop: LoopId, pc: Pc)

  /** `created` records every pool create_pool ever returned, with the loop that asked for it. */
  datatype System = System(g: Globals, tasks: map<TaskId, Task>, created: map<PoolId, LoopId>)

  datatype Event =
    | SpawnInit(t: TaskId, loop: LoopId)
    | SpawnClose(t: TaskId, loop: LoopId)
    | Enter(t: TaskId, configOk: bool)
    | Wake(t: TaskId, configOk: bool)
    | CreateReturns(t: TaskId, p: PoolId)
    | CreateRaises(t: TaskId)
    | MigrationEnds(t: TaskId)
    | CloseReturns(t: TaskId)
    | CloseRaises(t: TaskId)
  {
    predicate Spawns() { SpawnInit? || SpawnClose? }
  }

  const INITIAL: System := System(Globals(map[], map[], None), map[], map[])

  predicate Enabled(s: System, e: Event) {
    if e.Spawns() then e.t !in s.tasks
    else
      e.t in s.tasks &&
      var pc := s.tasks[e.t].pc;
      var k := s.g.LockOf(s.tasks[e.t].loop);
      match e
      case Enter(_, _) => pc.InitStart? || pc.CloseStart?
      case Wake(t, _) => pc.Queued() && !k.held && k.waiters != [] && k.waiters[0] == t
      case CreateReturns(_, p) => pc.Creating? && p !in s.created
      case CreateRaises(_) => pc.Creating?
      case MigrationEnds(_) => pc.Migrating?
      case CloseReturns(_) => pc.Closing?
      case CloseRaises(_) => pc.Closing?
  }

  /** What the event's task does to the globals, and where it stands afterwards. */
  function Resume(s: System, e: Event): (Globals, Pc)
    requires !e.Spawns() && Enabled(s, e)
  {
    var g, l, pc := s.g, s.tasks[e.t].loop, s.tasks[e.t].pc;
    match e
    case Enter(t, ok) => if pc.InitStart? then InitEnter(g, t, l, ok) else CloseEnter(g, t, l)
    case Wake(_, ok) =>
      if pc.InitQueued? then InitLocked(TakeAsFirst(g, l), l, ok) else CloseLocked(TakeAsFirst(g, l), l)
    case CreateReturns(_, p) => CreateReturned(g, l, p)
    case CreateRaises(_) => (g.Release(l), InitRaised)
    case MigrationEnds(_) => (g.Release(l), InitReturned(pc.pool))
    case CloseReturns(_) => CloseEnded(g, pc.closing)
    case CloseRaises(_) => (g, CloseRaised(pc.closing))
  }

  function Apply(s: System, e: Event): System
    requires Enabled(s, e)
  {
    match e
    case SpawnInit(t, l) => s.(tasks := s.tasks[t := Task(l, InitStart)])
    case SpawnClose(t, l) => s.(tasks := s.tasks[t := Task(l, CloseStart)])
    case _ =>
      var (g', pc') := Resume(s, e);
      System(g', s.tasks[e.t := s.tasks[e.t].(pc := pc')],
             if e.CreateReturns? then s.created[e.p := s.tasks[e.t].loop] else s.created)
  }

  /** The events all happen, one after the other, from s. */
  predicate Runs(s: System, events: seq<Event>)
    decreases |events|
  {
    events == [] || (Enabled(s, events[0]) && Runs(Apply(s, events[0]), events[1..]))
  }

  function After(s: System, events: seq<Event>): System
    requires Runs(s, events)
    decreases |events|
  {
    if events == [] then s else After(Apply(s, events[0]), events[1..])
  }

  // ---------------------------------------------------------------- invariants

  /** p was created for some loop and is that loop's pool now. */
  predicate Registered(s: System, p: PoolId) {
    p in s.created && s.created[p] in s.g.pools && s.g.pools[s.created[p]] == p
  }

  /** At most one task per loop is in the locked region, exactly when the lock is held. */
  ghost predicate LockInv(s: System) {
    && (forall t, u | t in s.tasks && u in s.tasks && s.tasks[t].loop == s.tasks[u].loop ::
          s.tasks[t].pc.InRegion() && s.tasks[u].pc.InRegion() ==> t == u)
    && (forall t :: t in s.tasks && s.tasks[t].pc.InRegion() ==> s.g.LockOf(s.tasks[t].loop).held)
    && (forall l :: s.g.LockOf(l).held ==>
          exists t :: t in s.tasks && s.tasks[t].loop == l && s.tasks[t].pc.InRegion())
  }

  /** The waiters of one lock, seen with the tasks: who they are, and that they differ. */
  ghost predicate QueueOf(tasks: map<TaskId, Task>, l: LoopId, waiters: seq<TaskId>) {
    && (forall i :: 0 <= i < |waiters| ==>
          waiters[i] in tasks && tasks[waiters[i]].loop == l && tasks[waiters[i]].pc.Queued())
    && (forall i, j :: 0 <= i < j < |waiters| ==> waiters[i] != waiters[j])
    && (forall t :: t in tasks && tasks[t].loop == l && tasks[t].pc.Queued() ==> t in waiters)
  }

  /** The queue of a lock holds exactly the tasks that await it, each once. */
  ghost predicate QueueInv(s: System) {
    forall l :: QueueOf(s.tasks, l, s.g.LockOf(l).waiters)
  }

  /** A creating task sees no pool for its loop; a migrating task sees its own. */
  ghost predicate RegionInv(s: System) {
    forall t :: t in s.tasks ==>
      && (s.tasks[t].pc.Creating? ==> s.tasks[t].loop !in s.g.pools)
      && (s.tasks[t].pc.Migrating? ==>
            s.tasks[t].loop in s.g.pools && s.g.pools[s.tasks[t].loop] == s.tasks[t].pc.pool)
  }

  /** A loop's pool was created for that loop. */
  predicate RegistryInv(s: System) {
    forall l :: l in s.g.pools ==> s.g.pools[l] in s.created && s.created[s.g.pools[l]] == l
  }

  /** A pool taken by close_pool is no longer registered, and no other task took it. */
  ghost predicate TakenInv(s: System) {
    && (forall t :: t in s.tasks && s.tasks[t].pc.Taken().Some? ==>
          var p := s.tasks[t].pc.Taken().value;
          p in s.created && s.created[p] == s.tasks[t].loop && !Registered(s, p))
    && (forall t, u | t in s.tasks && u in s.tasks && s.tasks[t].pc.Taken().Some? ::
          s.tasks[t].pc.Taken() == s.tasks[u].pc.Taken() ==> t == u)
  }

  ghost predicate TakenBySome(s: System, p: PoolId) {
    exists t :: t in s.tasks && s.tasks[t].pc.Taken() == Some(p)
  }

  /** No created pool is lost: it is registered or some close_pool took it. */
  ghost predicate AccountedInv(s: System) {
    forall p :: p in s.created ==> Registered(s, p) || TakenBySome(s, p)
  }

  /** The fallback pointer is unset, registered, or taken by a close_pool that did not return normally. */
  ghost predicate LastInv(s: System) {
    s.g.last.Some? ==>
      || Registered(s, s.g.last.value)
      || (exists t :: t in s.tasks
            && (s.tasks[t].pc == Closing(s.g.last.value) || s.tasks[t].pc == CloseRaised(s.g.last.value)))
  }

  ghost predicate Inv(s: System) {
    && LockInv(s) && QueueInv(s) && RegionInv(s)
    && RegistryInv(s) && TakenInv(s) && AccountedInv(s) && LastInv(s)
  }

  /** What an event does to the lock of its own loop. */
  lemma LockEffect(s: System, e: Event)
    requires Enabled(s, e) && !e.Spawns()
    requires s.tasks[e.t].pc.InRegion() ==> s.g.LockOf(s.tasks[e.t].loop).held
    ensures
      var l, pc, (g', pc') := s.tasks[e.t].loop, s.tasks[e.t].pc, Resume(s, e);
      var k, k' := s.g.LockOf(l), g'.LockOf(l);
      && k'.waiters == (if pc.Queued() then k.waiters[1..] else if pc'.Queued() then k.waiters + [e.t] else k.waiters)
      && (k'.held <==> if pc.InRegion() || pc'.InRegion() then pc'.InRegion() else k.held)
      && (pc'.InRegion() && !pc.InRegion() ==> !k.held)
      && (pc'.Queued() ==> !pc.Queued() && !pc.InRegion())
  {
  }

  /** An event touches no lock and no pool of another loop. */
  lemma OtherLoops(s: System, e: Event, m: LoopId)
    requires Enabled(s, e) && !e.Spawns() && m != s.tasks[e.t].loop
    ensures Resume(s, e).0.LockOf(m) == s.g.LockOf(m)
    ensures m in Resume(s, e).0.pools <==> m in s.g.pools
    ensures m in s.g.pools ==> Resume(s, e).0.pools[m] == s.g.pools[m]
  {
  }

  /** What an event does to the registered pool of its own loop and to the fallback pointer. */
  lemma PoolEffect(s: System, e: Event)
    requires Enabled(s, e) && !e.Spawns()
    ensures
      var l, pc, (g', pc') := s.tasks[e.t].loop, s.tasks[e.t].pc, Resume(s, e);
      && g'.pools == (if e.CreateReturns? then s.g.pools[l := e.p]
                      else if (e.Enter? || e.Wake?) && (pc'.Closing? || pc'.CloseReturned?) then s.g.pools - {l}
                      else s.g.pools)
      && (pc'.Creating? && !e.CreateReturns? ==> l !in s.g.pools)
      && (pc'.Taken() != pc.Taken() ==>
        (e.Enter? || e.Wake?) && pc'.Closing? && l in s.g.pools && pc'.closing == s.g.pools[l])
      && g'.last == (if e.CreateReturns? then Some(e.p)
                     else if e.Enter? && pc.InitStart? && l in s.g.pools then Some(s.g.pools[l])
                     else if e.CloseReturns? && s.g.last == Some(pc.closing) then None
                     else s.g.last)
  {
  }

  lemma StepKeepsLockInv(s: System, e: Event)
    requires LockInv(s) && Enabled(s, e)
    ensures LockInv(Apply(s, e))
  {
    var s' := Apply(s, e);
    if !e.Spawns() {
      LockEffect(s, e);
      forall m | m != s.tasks[e.t].loop { OtherLoops(s, e, m); }
    }
    forall l | s'.g.LockOf(l).held
      ensures exists t :: t in s'.tasks && s'.tasks[t].loop == l && s'.tasks[t].pc.InRegion()
    {
      var t := Holder(s, e, l);
    }
  }

  /** A lock held after an event has a holder. */
  lemma Holder(s: System, e: Event, l: LoopId) returns (t: TaskId)
    requires LockInv(s) && Enabled(s, e) && Apply(s, e).g.LockOf(l).held
    ensures t in Apply(s, e).tasks && Apply(s, e).tasks[t].loop == l && Apply(s, e).tasks[t].pc.InRegion()
  {
    if !e.Spawns() {
      LockEffect(s, e);
      if l != s.tasks[e.t].loop {
        OtherLoops(s, e, l);
      }
    }
    if !e.Spawns() && s.tasks[e.t].loop == l && Apply(s, e).tasks[e.t].pc.InRegion() {
      t := e.t;
    } else {
      t :| t in s.tasks && s.tasks[t].loop == l && s.tasks[t].pc.InRegion();
      assert Apply(s, e).tasks[t] == s.tasks[t];
    }
  }

  lemma QueueStep(tasks: map<TaskId, Task>, t: TaskId, pc: Pc, l: LoopId, w: seq<TaskId>, w': seq<TaskId>)
    requires QueueOf(tasks, l, w) && t in tasks
    requires tasks[t].loop != l ==> w' == w
    requires tasks[t].loop == l ==>
      w' == if tasks[t].pc.Queued() then w[1..] else if pc.Queued() then w + [t] else w
    requires tasks[t].pc.Queued() ==> !pc.Queued()
    requires tasks[t].pc.Queued() && tasks[t].loop == l ==> w[0] == t
    ensures QueueOf(tasks[t := tasks[t].(pc := pc)], l, w')
  {
    var tasks' := tasks[t := tasks[t].(pc := pc)];
    forall u | u in tasks' && tasks'[u].loop == l && tasks'[u].pc.Queued()
      ensures u in w'
    {
      if u == t {
        assert w' == w + [t];
      } else {
        assert u in w;
      }
    }
  }

  lemma StepKeepsQueueInv(s: System, e: Event)
    requires LockInv(s) && QueueInv(s) && Enabled(s, e)
    ensures QueueInv(Apply(s, e))
  {
    if !e.Spawns() {
      LockEffect(s, e);
      var (g', pc') := Resume(s, e);
      forall l
        ensures QueueOf(Apply(s, e).tasks, l, g'.LockOf(l).waiters)
      {
        if l != s.tasks[e.t].loop {
          OtherLoops(s, e, l);
        }
        QueueStep(s.tasks, e.t, pc', l, s.g.LockOf(l).waiters, g'.LockOf(l).waiters);
      }
    }
  }

  lemma StepKeepsRegionInv(s: System, e: Event)
    requires LockInv(s) && RegionInv(s) && Enabled(s, e)
    ensures RegionInv(Apply(s, e))
  {
    if !e.Spawns() {
      LockEffect(s, e);
      PoolEffect(s, e);
    }
  }

  lemma StepKeepsRegistryInv(s: System, e: Event)
    requires RegistryInv(s) && Enabled(s, e)
    ensures RegistryInv(Apply(s, e))
  {
    if !e.Spawns() {
      PoolEffect(s, e);
    }
  }

  lemma StepKeepsTakenInv(s: System, e: Event)
    requires RegionInv(s) && RegistryInv(s) && TakenInv(s) && Enabled(s, e)
    ensures TakenInv(Apply(s, e))
  {
    if !e.Spawns() {
      PoolEffect(s, e);
    }
  }

  lemma StepKeepsAccountedInv(s: System, e: Event)
    requires RegionInv(s) && RegistryInv(s) && AccountedInv(s) && Enabled(s, e)
    ensures AccountedInv(Apply(s, e))
  {
    var s' := Apply(s, e);
    if !e.Spawns() {
      PoolEffect(s, e);
    }
    forall p | p in s'.created && !Registered(s', p)
      ensures TakenBySome(s', p)
    {
      if p in s.created && Registered(s, p) {
        assert s'.tasks[e.t].pc.Taken() == Some(p);
      } else {
        var t :| t in s.tasks && s.tasks[t].pc.Taken() == Some(p);
        assert s'.tasks[t].pc.Taken() == Some(p);
      }
    }
  }

  lemma StepKeepsLastInv(s: System, e: Event)
    requires RegionInv(s) && RegistryInv(s) && LastInv(s) && Enabled(s, e)
    ensures LastInv(Apply(s, e))
  {
    var s' := Apply(s, e);
    if !e.Spawns() {
      PoolEffect(s, e);
    }
    if s'.g.last.Some? {
      var p := s'.g.last.value;
      if s'.g.last != s.g.last {
        assert Registered(s', p);
      } else if Registered(s, p) {
        if !Registered(s', p) {
          assert s'.tasks[e.t].pc == Closing(p);
        }
      } else {
        var t :| t in s.tasks && (s.tasks[t].pc == Closing(p) || s.tasks[t].pc == CloseRaised(p));
        assert t in s'.tasks;
        assert s'.tasks[t].pc == Closing(p) || s'.tasks[t].pc == CloseRaised(p);
      }
    }
  }

  lemma StepKeepsInv(s: System, e: Event)
    requires Inv(s) && Enabled(s, e)
    ensures Inv(Apply(s, e))
  {
    StepKeepsLockInv(s, e);
    StepKeepsQueueInv(s, e);
    StepKeepsRegionInv(s, e);
    StepKeepsRegistryInv(s, e);
    StepKeepsTakenInv(s, e);
    StepKeepsAccountedInv(s, e);
    StepKeepsLastInv(s, e);
  }

  lemma {:induction false} RunKeepsInv(s: System, events: seq<Event>)
    requires Inv(s) && Runs(s, events)
    ensures Inv(After(s, events))
    decreases |events|
  {
    if events != [] {
      StepKeepsInv(s, events[0]);
      RunKeepsInv(Apply(s, events[0]), events[1..]);
    }
  }

  // ---------------------------------------------------------------- theorems about every run

  ghost predicate Reachable(s: System) {
    exists events :: Runs(INITIAL, events) && After(INITIAL, events) == s
  }

  lemma ReachableInv(s: System)
    requires Reachable(s)
    ensures Inv(s)
  {
    var events :| Runs(INITIAL, events) && After(INITIAL, events) == s;
    RunKeepsInv(INITIAL, events);
  }

  /** In every interleaving each loop has at most one task in the locked region. */
  lemma MutualExclusion(s: System, t: TaskId, u: TaskId)
    requires Reachable(s) && t in s.tasks && u in s.tasks && t != u
    requires s.tasks[t].loop == s.tasks[u].loop
    ensures !(s.tasks[t].pc.InRegion() && s.tasks[u].pc.InRegion())
  {
    ReachableInv(s);
  }

  /** A created pool is registered or was taken by a close_pool, never both, never twice. */
  lemma PoolsAreConserved(s: System, p: PoolId)
    requires Reachable(s) && p in s.created
    ensures Registered(s, p) <==> !TakenBySome(s, p)
    ensures forall t, u | t in s.tasks && u in s.tasks ::
              s.tasks[t].pc.Taken() == Some(p) && s.tasks[u].pc.Taken() == Some(p) ==> t == u
  {
    ReachableInv(s);
  }

  /** Two pools of one loop that no close_pool has taken are the same pool. */
  lemma OnePoolPerLoop(s: System, p: PoolId, q: PoolId)
    requires Reachable(s) && p in s.created && q in s.created && s.created[p] == s.created[q]
    requires !TakenBySome(s, p) && !TakenBySome(s, q)
    ensures p == q
  {
    ReachableInv(s);
  }

  lemma InitReturnEffect(s: System, e: Event)
    requires RegionInv(s) && Enabled(s, e) && !e.Spawns() && Resume(s, e).1.InitReturned?
    ensures s.tasks[e.t].loop in Resume(s, e).0.pools &&
            Resume(s, e).0.pools[s.tasks[e.t].loop] == Resume(s, e).1.result
  {
  }

  /**
    At the moment init_pool returns, what it returns is the pool registered for its loop, no
    close has taken it, and get_pool called on that loop hands out the same pool.
   */
  lemma InitReturnsTheRegisteredPool(s: System, e: Event)
    requires Reachable(s) && Enabled(s, e) && !e.Spawns() && Apply(s, e).tasks[e.t].pc.InitReturned?
    ensures
      var s', l := Apply(s, e), s.tasks[e.t].loop;
      var p := s'.tasks[e.t].pc.result;
      && l in s'.g.pools && s'.g.pools[l] == p
      && Registered(s', p) && !TakenBySome(s', p)
      && GetPool(s'.g, Some(l)) == Some(p)
  {
    ReachableInv(s);
    StepKeepsRegistryInv(s, e);
    StepKeepsTakenInv(s, e);
    InitReturnEffect(s, e);
  }

  /**
    get_pool hands out a registered pool, one whose close_pool is still awaiting, or one whose
    close raised; hence never a pool whose close_pool returned normally.
   */
  lemma GetPoolIsNeverClosed(s: System, loop: Option<LoopId>)
    requires Reachable(s) && GetPool(s.g, loop).Some?
    ensures
      var p := GetPool(s.g, loop).value;
      && (|| Registered(s, p)
          || exists t :: t in s.tasks && (s.tasks[t].pc == Closing(p) || s.tasks[t].pc == CloseRaised(p)))
      && (forall t :: t in s.tasks ==> s.tasks[t].pc != CloseReturned(Some(p)))
  {
    ReachableInv(s);
    LookUpFacts(s, loop);
  }

  lemma LookUpFacts(s: System, loop: Option<LoopId>)
    requires RegistryInv(s) && TakenInv(s) && LastInv(s) && GetPool(s.g, loop).Some?
    ensures
      var p := GetPool(s.g, loop).value;
      && (|| Registered(s, p)
          || exists t :: t in s.tasks && (s.tasks[t].pc == Closing(p) || s.tasks[t].pc == CloseRaised(p)))
      && (forall t :: t in s.tasks ==> s.tasks[t].pc != CloseReturned(Some(p)))
  {
    var p := GetPool(s.g, loop).value;
    if !Registered(s, p) {
      var u :| u in s.tasks && (s.tasks[u].pc == Closing(p) || s.tasks[u].pc == CloseRaised(p));
      assert s.tasks[u].pc.Taken() == Some(p);
    }
    assert CloseReturned(Some(p)).Taken() == Some(p);
  }

  /** A close that returns changes the fallback pointer exactly when that is its own pool; a registered one survives. */
  lemma CloseKeepsNewerPools(s: System, e: Event)
    requires Reachable(s) && Enabled(s, e) && e.CloseReturns?
    ensures Apply(s, e).g.last == s.g.last <==> s.g.last != Some(s.tasks[e.t].pc.closing)
    ensures s.g.last.Some? && Registered(s, s.g.last.value) ==> Apply(s, e).g.last == s.g.last
    ensures Apply(s, e).g.last != Some(s.tasks[e.t].pc.closing)
  {
    ReachableInv(s);
    assert s.tasks[e.t].pc.Taken() == Some(s.tasks[e.t].pc.closing);
  }

  lemma {:induction false} RunsJoin(s: System, first: seq<Event>, second: seq<Event>)
    requires Runs(s, first) && Runs(After(s, first), second)
    ensures Runs(s, first + second) && After(s, first + second) == After(After(s, first), second)
    decreases |first|
  {
    if first == [] {
      assert first + second == second;
    } else {
      RunsJoin(Apply(s, first[0]), first[1..], second);
      assert (first + second)[1..] == first[1..] + second;
    }
  }

  // ---------------------------------------------------------------- how a task goes on

  /** The event lets its task into the locked region's code: it enters and the lock is free, or it is woken. */
  predicate GetsLock(s: System, e: Event)
    requires Enabled(s, e)
  {
    e.Wake? || (e.Enter? && !s.g.LockOf(s.tasks[e.t].loop).held && s.g.LockOf(s.tasks[e.t].loop).waiters == [])
  }

  /**
    An init_pool that enters or is woken: a registered pool is handed out; otherwise it waits
    while it cannot have the lock, and with the lock it creates a pool exactly if its
    configuration is valid, keeping the lock exactly then, whatever other loops and the
    fallback hold.
   */
  lemma InitGoesOn(s: System, e: Event)
    requires Enabled(s, e) && (e.Enter? || e.Wake?)
    requires s.tasks[e.t].pc.InitStart? || s.tasks[e.t].pc.InitQueued?
    ensures
      var s', l := Apply(s, e), s.tasks[e.t].loop;
      && s'.g.pools == s.g.pools && s'.created == s.created
      && s'.tasks[e.t] == Task(l, if l in s.g.pools then InitReturned(s.g.pools[l])
                                  else if !GetsLock(s, e) then InitQueued
                                  else if e.configOk then Creating else InitRaised)
      && (GetsLock(s, e) && l !in s.g.pools ==> (s'.g.LockOf(l).held <==> e.configOk))
  {
  }

  /** A close_pool that enters or is woken takes its loop's pool out, if there is one, or waits for the lock. */
  lemma CloseGoesOn(s: System, e: Event)
    requires Enabled(s, e) && (e.Enter? || e.Wake?)
    requires s.tasks[e.t].pc.CloseStart? || s.tasks[e.t].pc.CloseQueued?
    ensures
      var s', l := Apply(s, e), s.tasks[e.t].loop;
      && s'.g.last == s.g.last && s'.created == s.created
      && s'.g.pools == (if GetsLock(s, e) then s.g.pools - {l} else s.g.pools)
      && s'.tasks[e.t] == Task(l, if !GetsLock(s, e) then CloseQueued
                                  else if l in s.g.pools then Closing(s.g.pools[l]) else CloseReturned(None))
      && (GetsLock(s, e) ==> !s'.g.LockOf(l).held)
  {
  }

  /** What create_pool, the schema check and pool.close() come back to. */
  lemma AwaitsGoOn(s: System, e: Event)
    requires Enabled(s, e) && !e.Spawns() && !e.Enter? && !e.Wake?
    ensures
      var s', l, pc, pc' := Apply(s, e), s.tasks[e.t].loop, s.tasks[e.t].pc, Apply(s, e).tasks[e.t].pc;
      && s'.tasks == s.tasks[e.t := Task(l, pc')]
      && match e
         case CreateReturns(_, p) =>
           pc' == Migrating(p) && s'.g.pools == s.g.pools[l := p] && s'.g.last == Some(p)
           && s'.created == s.created[p := l] && s'.g.LockOf(l) == s.g.LockOf(l)
         case CreateRaises(_) =>
           pc' == InitRaised && s'.g.pools == s.g.pools && s'.g.last == s.g.last && !s'.g.LockOf(l).held
         case MigrationEnds(_) =>
           pc' == InitReturned(pc.pool) && s'.g.pools == s.g.pools && s'.g.last == s.g.last && !s'.g.LockOf(l).held
         case CloseReturns(_) =>
           pc' == CloseReturned(Some(pc.closing)) && s'.g.pools == s.g.pools
           && s'.g.last == (if s.g.last == Some(pc.closing) then None else s.g.last)
         case CloseRaises(_) => pc' == CloseRaised(pc.closing) && s'.g == s.g
  {
  }

  /**
    The event makes the task's init_pool raise: a bad configuration found with no pool to hand out, or
    create_pool's own error.
   */
  predicate MakesInitRaise(s: System, e: Event, t: TaskId)
    requires Enabled(s, e)
  {
    && !e.Spawns() && e.t == t
    && (|| e.CreateRaises?
        || (&& (s.tasks[t].pc.InitStart? || s.tasks[t].pc.InitQueued?)
            && GetsLock(s, e) && s.tasks[t].loop !in s.g.pools && !e.configOk))
  }

  predicate InitRaisesLater(s: System, events: seq<Event>, t: TaskId)
    requires Runs(s, events)
    decreases |events|
  {
    events != [] && (MakesInitRaise(s, events[0], t) || InitRaisesLater(Apply(s, events[0]), events[1..], t))
  }

  predicate HasRaised(s: System, t: TaskId) {
    t in s.tasks && s.tasks[t].pc.InitRaised?
  }

  lemma RaisesInStep(s: System, e: Event, t: TaskId)
    requires Enabled(s, e)
    ensures HasRaised(Apply(s, e), t) <==> HasRaised(s, t) || MakesInitRaise(s, e, t)
  {
    if !e.Spawns() && (e.Enter? || e.Wake?) && e.t == t {
      if s.tasks[t].pc.InitStart? || s.tasks[t].pc.InitQueued? {
        InitGoesOn(s, e);
      } else {
        CloseGoesOn(s, e);
      }
    }
  }

  /**
    Over every run an init_pool has raised exactly when its configuration was bad as it needed one, or
    its create_pool raised.
   */
  lemma {:induction false} InitRaisesExactly(s: System, events: seq<Event>, t: TaskId)
    requires Runs(s, events)
    ensures HasRaised(After(s, events), t) <==> HasRaised(s, t) || InitRaisesLater(s, events, t)
    decreases |events|
  {
    if events != [] {
      RaisesInStep(s, events[0], t);
      InitRaisesExactly(Apply(s, events[0]), events[1..], t);
    }
  }

  // ---------------------------------------------------------------- pools whose close has ended

  /** The event gives the fallback pointer a pool: one just created, or the one an init_pool finds registered. */
  predicate SetsLast(s: System, e: Event)
    requires Enabled(s, e)
  {
    e.CreateReturns? || (e.Enter? && s.tasks[e.t].pc.InitStart? && s.tasks[e.t].loop in s.g.pools)
  }

  /** Some event of the run gives the fallback pointer a pool. */
  predicate SetsLastLater(s: System, events: seq<Event>)
    requires Runs(s, events)
    decreases |events|
  {
    events != [] && (SetsLast(s, events[0]) || SetsLastLater(Apply(s, events[0]), events[1..]))
  }

  /** The task's close_pool took the pool and has ended. */
  predicate Closed(s: System, t: TaskId, p: PoolId) {
    t in s.tasks && (s.tasks[t].pc == CloseReturned(Some(p)) || s.tasks[t].pc == CloseRaised(p))
  }

  lemma ClosedIsTaken(s: System, t: TaskId, p: PoolId)
    requires TakenInv(s) && Closed(s, t, p)
    ensures p in s.created && !Registered(s, p)
    ensures forall u :: u in s.tasks ==> s.tasks[u].pc != Closing(p)
  {
    assert s.tasks[t].pc.Taken() == Some(p);
    assert Closing(p).Taken() == Some(p);
  }

  /** An event moves the fallback pointer off a closed pool exactly by giving it another, and never onto one. */
  lemma ClosedStep(s: System, t: TaskId, p: PoolId, e: Event)
    requires RegistryInv(s) && TakenInv(s) && Closed(s, t, p) && Enabled(s, e)
    ensures Closed(Apply(s, e), t, p)
    ensures Apply(s, e).g.last == Some(p) <==> s.g.last == Some(p) && !SetsLast(s, e)
  {
    ClosedIsTaken(s, t, p);
    if !e.Spawns() {
      PoolEffect(s, e);
    }
  }

  lemma {:induction false} ClosedRun(s: System, t: TaskId, p: PoolId, events: seq<Event>)
    requires Inv(s) && Closed(s, t, p) && Runs(s, events)
    ensures Closed(After(s, events), t, p)
    ensures After(s, events).g.last == Some(p) <==> s.g.last == Some(p) && !SetsLastLater(s, events)
    decreases |events|
  {
    if events != [] {
      ClosedStep(s, t, p, events[0]);
      StepKeepsInv(s, events[0]);
      ClosedRun(Apply(s, events[0]), t, p, events[1..]);
    }
  }

  /**
    After a close_pool has ended, and after any further events, get_pool hands out its pool
    exactly when the close raised while the pool was the fallback, none of the events gave the
    fallback a pool, and the caller's loop has none of its own.
   */
  lemma ClosedPoolIsHandedOutExactly(s: System, e: Event, events: seq<Event>, loop: Option<LoopId>)
    requires Reachable(s) && Enabled(s, e) && (e.CloseReturns? || e.CloseRaises?)
    requires Runs(Apply(s, e), events)
    ensures
      var p, end := s.tasks[e.t].pc.closing, After(Apply(s, e), events);
      GetPool(end.g, loop) == Some(p) <==>
        && e.CloseRaises? && s.g.last == Some(p) && !SetsLastLater(Apply(s, e), events)
        && !(loop.Some? && loop.value in end.g.pools)
  {
    var s', p := Apply(s, e), s.tasks[e.t].pc.closing;
    ReachableInv(s);
    StepKeepsInv(s, e);
    PoolEffect(s, e);
    ClosedRun(s', e.t, p, events);
    RunKeepsInv(s', events);
    ClosedIsTaken(After(s', events), e.t, p);
  }

  /** If pool.close() raises, get_pool goes on handing out the pool after its close_pool has ended. */
  lemma RaisingCloseLeavesThePoolInUse() returns (s: System, t: TaskId, p: PoolId)
    ensures Reachable(s) && t in s.tasks && s.tasks[t].pc == CloseRaised(p) && !Registered(s, p)
    ensures GetPool(s.g, None) == Some(p)
  {
    t := 1;
    s, p := OnePool();
    s := ReachNext(s, SpawnClose(t, 0));
    s := ReachNext(s, Enter(t, true));
    s := ReachNext(s, CloseRaises(t));
  }

  lemma OneCreating() returns (s: System)
    ensures Reachable(s) &&
            s == System(Globals(map[], map[0 := Lock(true, [])], None), map[0 := Task(0, Creating)], map[])
  {
    assert Runs(INITIAL, []);
    s := ReachNext(INITIAL, SpawnInit(0, 0));
    s := ReachNext(s, Enter(0, true));
  }

  lemma OnePool() returns (s: System, p: PoolId)
    ensures Reachable(s) && s.tasks.Keys == {0} && s.created == map[p := 0]
    ensures s.g == Globals(map[0 := p], map[0 := Lock(false, [])], Some(p))
  {
    p := 5;
    s := OneCreating();
    s := ReachNext(s, CreateReturns(0, p));
    s := ReachNext(s, MigrationEnds(0));
  }

  lemma ReachNext(s: System, e: Event) returns (s': System)
    requires Reachable(s) && Enabled(s, e)
    ensures s' == Apply(s, e) && Reachable(s')
  {
    s' := Apply(s, e);
    var events :| Runs(INITIAL, events) && After(INITIAL, events) == s;
    assert [e][1..] == [];
    assert Runs(s', []) && After(s', []) == s';
    assert Runs(s, [e]) && After(s, [e]) == s';
    RunsJoin(INITIAL, events, [e]);
  }

  // ---------------------------------------------------------------- no deadlock, and an end

  ghost function Ranks(tasks: map<TaskId, Task>): map<TaskId, nat> {
    map t | t in tasks :: tasks[t].pc.Rank()
  }

  ghost function TotalRank(s: System): nat {
    Sum(Ranks(s.tasks))
  }

  lemma RankOfUpdate(tasks: map<TaskId, Task>, t: TaskId, task: Task)
    ensures t in tasks ==> Sum(Ranks(tasks[t := task])) + tasks[t].pc.Rank() == Sum(Ranks(tasks)) + task.pc.Rank()
    ensures t in tasks ==> tasks[t := task].Keys == tasks.Keys
    ensures t !in tasks ==> Sum(Ranks(tasks[t := task])) == Sum(Ranks(tasks)) + task.pc.Rank()
    ensures t !in tasks ==> |tasks[t := task]| == |tasks| + 1
  {
    assert Ranks(tasks[t := task]) == Ranks(tasks)[t := task.pc.Rank()];
    SumUpdate(Ranks(tasks), t, task.pc.Rank());
  }

  lemma EventLowersTaskRank(s: System, e: Event)
    requires Enabled(s, e) && !e.Spawns()
    ensures Resume(s, e).1.Rank() < s.tasks[e.t].pc.Rank()
  {
  }

  lemma EventLowersRank(s: System, e: Event)
    requires Enabled(s, e)
    ensures !e.Spawns() ==> TotalRank(Apply(s, e)) < TotalRank(s) && Apply(s, e).tasks.Keys == s.tasks.Keys
    ensures e.Spawns() ==> TotalRank(Apply(s, e)) <= TotalRank(s) + 4 && |Apply(s, e).tasks| == |s.tasks| + 1
  {
    if e.Spawns() {
      RankOfUpdate(s.tasks, e.t, Task(e.loop, if e.SpawnInit? then InitStart else CloseStart));
    } else {
      var (g', pc') := Resume(s, e);
      EventLowersTaskRank(s, e);
      RankOfUpdate(s.tasks, e.t, s.tasks[e.t].(pc := pc'));
    }
  }

  /** A run takes at most five events per task it starts, so no run goes on forever. */
  lemma {:induction false} RunsAreShort(s: System, events: seq<Event>)
    requires Runs(s, events)
    ensures |s.tasks| <= |After(s, events).tasks|
    ensures |events| + TotalRank(After(s, events)) <= TotalRank(s) + 5 * (|After(s, events).tasks| - |s.tasks|)
    decreases |events|
  {
    if events != [] {
      EventLowersRank(s, events[0]);
      assert |Apply(s, events[0]).tasks.Keys| == |Apply(s, events[0]).tasks| && |s.tasks.Keys| == |s.tasks|;
      RunsAreShort(Apply(s, events[0]), events[1..]);
    }
  }

  /** While some task has not finished, some task can go on: the locks never block all of them. */
  lemma NoDeadlock(s: System, t: TaskId) returns (e: Event)
    requires Inv(s) && t in s.tasks && !s.tasks[t].pc.Finished()
    ensures !e.Spawns() && Enabled(s, e)
  {
    var k := s.g.LockOf(s.tasks[t].loop);
    var pc := s.tasks[t].pc;
    if pc.InitStart? || pc.CloseStart? {
      e := Enter(t, true);
    } else if pc.InRegion() {
      e := LeaveRegion(s, t);
    } else if pc.Closing? {
      e := CloseReturns(t);
    } else if k.held {
      var u :| u in s.tasks && s.tasks[u].loop == s.tasks[t].loop && s.tasks[u].pc.InRegion();
      e := LeaveRegion(s, u);
    } else {
      assert QueueOf(s.tasks, s.tasks[t].loop, k.waiters);
      e := Wake(k.waiters[0], true);
    }
  }

  lemma LeaveRegion(s: System, t: TaskId) returns (e: Event)
    requires t in s.tasks && s.tasks[t].pc.InRegion()
    ensures !e.Spawns() && Enabled(s, e)
  {
    e := if s.tasks[t].pc.Creating? then CreateRaises(t) else MigrationEnds(t);
  }

  /** From every reachable state all started tasks can finish without starting another. */
  lemma {:induction false} EveryTaskCanFinish(s: System) returns (events: seq<Event>)
    requires Inv(s)
    ensures Runs(s, events) && After(s, events).tasks.Keys == s.tasks.Keys
    ensures forall t :: t in s.tasks ==> After(s, events).tasks[t].pc.Finished()
    decreases TotalRank(s)
  {
    if t :| t in s.tasks && !s.tasks[t].pc.Finished() {
      var e := NoDeadlock(s, t);
      EventLowersRank(s, e);
      StepKeepsInv(s, e);
      var rest := EveryTaskCanFinish(Apply(s, e));
      events := [e] + rest;
      assert events[1..] == rest;
    } else {
      events := [];
    }
  }
}
