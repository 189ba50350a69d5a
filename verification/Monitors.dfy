/** Locks and condition variables: lock_acquire, lock_try_acquire, lock_release,
    cond_wait and cond_signal as steps of any number of threads around one lock
    and any number of condition variables.  Threads interleave between steps. */
module Monitors {
  import opened Basics
  import opened Semaphores

  type Cond = nat

  /** Where a thread is inside a sema_down: about to test, blocked, or woken and about to test again. */
  datatype Sleep = Entering | Asleep | Awake

  /** Where a thread is. */
  datatype Pc =
    | Idle                                     // neither holds the lock nor wants it
    | Acquire(d: Sleep, from: Option<Cond>)    // in sema_down on the lock, perhaps to end a cond_wait
    | Acquired(from: Option<Cond>)             // past sema_down, holder not yet set
    | Inside                                   // holds the lock
    | Release                                  // holder cleared, before sema_up
    | Queued(c: Cond)                          // in cond_wait, listed, before lock_release
    | Leaving(c: Cond)                         // in cond_wait, holder cleared, before sema_up
    | Waiting(c: Cond, d: Sleep)               // in sema_down on its own waiter
    | Signal(c: Cond, w: Thread)               // in cond_signal, has taken W's waiter, before sema_up

  /** How far the current wait of a thread has come. */
  datatype Stage = NoWait | Listed(c: Cond) | Taken(c: Cond, signaller: Thread) | Posted(c: Cond)

  /** The lock, each thread's own waiter semaphore and the lists of waiters; STAGE,
      ARRIVED, TAKEN and RETURNED record history. */
  datatype Monitor = Monitor(
    lock: Sema, holder: Option<Thread>, pcs: map<Thread, Pc>, own: map<Thread, Sema>,
    conds: map<Cond, seq<Thread>>, stage: map<Thread, Stage>,
    arrived: map<Cond, seq<Thread>>, taken: map<Cond, seq<Thread>>, returned: map<Cond, seq<Thread>>)

  datatype Op =
    | LockDown(t: Thread)           // one turn of sema_down on the lock
    | LockTryDown(t: Thread)        // sema_try_down on the lock
    | SetHolder(t: Thread)          // the end of lock_acquire
    | ClearHolder(t: Thread)        // the start of lock_release
    | LockUp(t: Thread)             // sema_up on the lock
    | Enqueue(t: Thread, c: Cond)   // the start of cond_wait
    | WaitDown(t: Thread)           // one turn of sema_down on the thread's waiter
    | Dequeue(t: Thread, c: Cond)   // the start of cond_signal
    | WaitUp(t: Thread)             // sema_up on the waiter that was taken

  predicate CanLockDown(p: Pc) {
    p.Idle? || (p.Acquire? && !p.d.Asleep?)
  }

  predicate Shaped(m: Monitor) {
    m.own.Keys == m.pcs.Keys && m.stage.Keys == m.pcs.Keys
    && m.arrived.Keys == m.conds.Keys && m.taken.Keys == m.conds.Keys && m.returned.Keys == m.conds.Keys
  }

  predicate Enabled(m: Monitor, op: Op) {
    && Shaped(m) && op.t in m.pcs
    && var p := m.pcs[op.t];
       match op
       case LockDown(t) => CanLockDown(p)
       case LockTryDown(t) => p.Idle?
       case SetHolder(t) => p.Acquired? && (p.from.Some? ==> p.from.value in m.conds)
       case ClearHolder(t) => p.Inside? || p.Queued?
       case LockUp(t) => p.Release? || p.Leaving?
       case Enqueue(t, c) => p.Inside? && c in m.conds
       case WaitDown(t) => p.Waiting? && !p.d.Asleep?
       case Dequeue(t, c) => p.Inside? && c in m.conds
       case WaitUp(t) => p.Signal? && p.w in m.pcs
  }

  function From(p: Pc): Option<Cond> {
    if p.Acquire? then p.from else None
  }

  /** The thread at the head of the lock's waiters is unblocked. */
  function Wake(pcs: map<Thread, Pc>, xs: seq<Thread>): map<Thread, Pc> {
    if xs == [] || xs[0] !in pcs then pcs else pcs[xs[0] := Acquire(Awake, From(pcs[xs[0]]))]
  }

  function Step(m: Monitor, op: Op): Monitor
    requires Enabled(m, op)
  {
    var t, p := op.t, m.pcs[op.t];
    match op
    case LockDown(_) =>
      m.(lock := Test(m.lock, t),
         pcs := m.pcs[t := if m.lock.value == 0 then Acquire(Asleep, From(p)) else Acquired(From(p))])
    case LockTryDown(_) =>
      if m.lock.value == 0 then m
      else m.(lock := m.lock.(value := m.lock.value - 1), pcs := m.pcs[t := Acquired(None)])
    case SetHolder(_) =>
      m.(holder := Some(t), pcs := m.pcs[t := Inside],
         returned := if p.from.None? then m.returned else m.returned[p.from.value := m.returned[p.from.value] + [t]])
    case ClearHolder(_) =>
      m.(holder := None, pcs := m.pcs[t := if p.Inside? then Release else Leaving(p.c)])
    case LockUp(_) =>
      m.(lock := Post(m.lock),
         pcs := Wake(m.pcs[t := if p.Release? then Idle else Waiting(p.c, Entering)], m.lock.waiters))
    case Enqueue(_, c) =>
      m.(own := m.own[t := Sema(0, [])], pcs := m.pcs[t := Queued(c)], stage := m.stage[t := Listed(c)],
         conds := m.conds[c := m.conds[c] + [t]], arrived := m.arrived[c := m.arrived[c] + [t]])
    case WaitDown(_) =>
      if m.own[t].value == 0 then m.(own := m.own[t := Test(m.own[t], t)], pcs := m.pcs[t := Waiting(p.c, Asleep)])
      else m.(own := m.own[t := Test(m.own[t], t)], pcs := m.pcs[t := Acquire(Entering, Some(p.c))],
              stage := m.stage[t := NoWait])
    case Dequeue(_, c) =>
      if m.conds[c] == [] then m
      else
        var w := m.conds[c][0];
        m.(conds := m.conds[c := m.conds[c][1..]], taken := m.taken[c := m.taken[c] + [w]],
           stage := m.stage[w := Taken(c, t)], pcs := m.pcs[t := Signal(c, w)])
    case WaitUp(_) =>
      var w, back := p.w, m.pcs[t := Inside];
      m.(own := m.own[w := Post(m.own[w])], stage := m.stage[w := Posted(p.c)],
         pcs := if m.own[w].waiters == [] then back else back[m.own[w].waiters[0] := Waiting(p.c, Awake)])
  }

  // ---- what every step keeps ----

  /** Past lock_acquire's sema_down and before lock_release's sema_up. */
  predicate Owns(p: Pc) {
    p.Acquired? || p.Inside? || p.Release? || p.Queued? || p.Leaving? || p.Signal?
  }

  predicate Holds(p: Pc) {
    p.Inside? || p.Queued? || p.Signal?
  }

  predicate AsleepOnLock(p: Pc) {
    p.Acquire? && p.d.Asleep?
  }

  predicate AwakeOnLock(p: Pc) {
    p.Acquire? && p.d.Awake?
  }

  function WaitsOn(p: Pc): Option<Cond> {
    match p
    case Queued(c) => Some(c)
    case Leaving(c) => Some(c)
    case Waiting(c, _) => Some(c)
    case _ => None
  }

  /** The condition variable whose wait this thread is about to return from. */
  function Resumes(p: Pc): Option<Cond> {
    match p
    case Acquire(_, from) => from
    case Acquired(from) => from
    case _ => None
  }

  function StageOn(g: Stage): Option<Cond> {
    match g
    case NoWait => None
    case Listed(c) => Some(c)
    case Taken(c, _) => Some(c)
    case Posted(c) => Some(c)
  }

  ghost function Group(pcs: map<Thread, Pc>, f: Pc -> bool): set<Thread> {
    set t | t in pcs && f(pcs[t])
  }

  /** Mutual exclusion, and no lost wake-up on the lock. */
  ghost predicate LockInv(lock: Sema, holder: Option<Thread>, pcs: map<Thread, Pc>) {
    && lock.value + |Group(pcs, Owns)| == 1
    && Group(pcs, Holds) == (if holder.None? then {} else {holder.value})
    && NoDup(lock.waiters) && Elems(lock.waiters) == Group(pcs, AsleepOnLock)
    && (lock.waiters != [] ==> |Group(pcs, AwakeOnLock)| >= lock.value)
  }

  function One(b: bool): int {
    if b then 1 else 0
  }

  lemma Regroup(pcs: map<Thread, Pc>, t: Thread, q: Pc, f: Pc -> bool)
    requires t in pcs
    ensures |Group(pcs[t := q], f)| == |Group(pcs, f)| + One(f(q)) - One(f(pcs[t]))
    ensures Group(pcs[t := q], f) == if f(q) == f(pcs[t]) then Group(pcs, f)
                                     else if f(q) then Group(pcs, f) + {t} else Group(pcs, f) - {t}
    ensures t in Group(pcs, f) <==> f(pcs[t])
  {
    var g, g' := Group(pcs, f), Group(pcs[t := q], f);
    assert g' == if f(q) then g + {t} else g - {t};
    if f(pcs[t]) {
      assert g == (g - {t}) + {t};
    }
  }

  /** A thread whose part in the lock does not change. */
  lemma LockNeutral(lock: Sema, holder: Option<Thread>, pcs: map<Thread, Pc>, t: Thread, q: Pc)
    requires LockInv(lock, holder, pcs) && t in pcs
    requires Owns(pcs[t]) == Owns(q) && Holds(pcs[t]) == Holds(q)
    requires AsleepOnLock(pcs[t]) == AsleepOnLock(q) && AwakeOnLock(pcs[t]) == AwakeOnLock(q)
    ensures LockInv(lock, holder, pcs[t := q])
  {
    hide NoDup, Elems, Group;
    Regroup(pcs, t, q, Owns);
    Regroup(pcs, t, q, Holds);
    Regroup(pcs, t, q, AsleepOnLock);
    Regroup(pcs, t, q, AwakeOnLock);
  }

  /** The lock has at most one owner. */
  lemma OneOwner(lock: Sema, holder: Option<Thread>, pcs: map<Thread, Pc>, t: Thread, u: Thread)
    requires LockInv(lock, holder, pcs) && t in pcs && u in pcs && Owns(pcs[t]) && Owns(pcs[u])
    ensures t == u && lock.value == 0
  {
    var g := Group(pcs, Owns);
    assert t in g && u in g && g == {t} + (g - {t});
    assert |g| == 1 + |g - {t}|;
    assert g - {t} == {};
  }

  lemma TakeLock(lock: Sema, holder: Option<Thread>, pcs: map<Thread, Pc>, t: Thread, from: Option<Cond>)
    requires LockInv(lock, holder, pcs) && t in pcs && CanLockDown(pcs[t])
    ensures lock.value > 0 ==> LockInv(lock.(value := lock.value - 1), holder, pcs[t := Acquired(from)])
    ensures lock.value == 0 ==> LockInv(Test(lock, t), holder, pcs[t := Acquire(Asleep, from)])
  {
    hide NoDup, Elems, Group;
    var q := if lock.value > 0 then Acquired(from) else Acquire(Asleep, from);
    Regroup(pcs, t, q, Owns);
    Regroup(pcs, t, q, Holds);
    Regroup(pcs, t, q, AsleepOnLock);
    Regroup(pcs, t, q, AwakeOnLock);
    if lock.value == 0 {
      Appended(lock.waiters, t);
    }
  }

  lemma NoHolder(lock: Sema, holder: Option<Thread>, pcs: map<Thread, Pc>, t: Thread)
    requires LockInv(lock, holder, pcs) && t in pcs && Owns(pcs[t])
    ensures holder == if Holds(pcs[t]) then Some(t) else None
  {
    assert Holds(pcs[t]) ==> t in Group(pcs, Holds);
    if holder.Some? {
      assert holder.value in Group(pcs, Holds);
      OneOwner(lock, holder, pcs, t, holder.value);
    }
  }

  lemma SetHolderInv(lock: Sema, holder: Option<Thread>, pcs: map<Thread, Pc>, t: Thread)
    requires LockInv(lock, holder, pcs) && t in pcs && pcs[t].Acquired?
    ensures LockInv(lock, Some(t), pcs[t := Inside])
  {
    NoHolder(lock, holder, pcs, t);
    hide NoDup, Elems, Group;
    Regroup(pcs, t, Inside, Owns);
    Regroup(pcs, t, Inside, Holds);
    Regroup(pcs, t, Inside, AsleepOnLock);
    Regroup(pcs, t, Inside, AwakeOnLock);
  }

  lemma ClearHolderInv(lock: Sema, holder: Option<Thread>, pcs: map<Thread, Pc>, t: Thread, q: Pc)
    requires LockInv(lock, holder, pcs) && t in pcs && Holds(pcs[t]) && (q.Release? || q.Leaving?)
    ensures LockInv(lock, None, pcs[t := q])
  {
    NoHolder(lock, holder, pcs, t);
    hide NoDup, Elems, Group;
    Regroup(pcs, t, q, Owns);
    Regroup(pcs, t, q, Holds);
    Regroup(pcs, t, q, AsleepOnLock);
    Regroup(pcs, t, q, AwakeOnLock);
  }

  lemma LockUpInv(lock: Sema, holder: Option<Thread>, pcs: map<Thread, Pc>, t: Thread, q: Pc)
    requires LockInv(lock, holder, pcs) && t in pcs && Owns(pcs[t]) && !Holds(pcs[t])
    requires q.Idle? || (q.Waiting? && q.d.Entering?)
    ensures LockInv(Post(lock), holder, Wake(pcs[t := q], lock.waiters))
  {
    OneOwner(lock, holder, pcs, t, t);
    hide NoDup, Elems, Group;
    Regroup(pcs, t, q, Owns);
    Regroup(pcs, t, q, Holds);
    Regroup(pcs, t, q, AsleepOnLock);
    Regroup(pcs, t, q, AwakeOnLock);
    if lock.waiters != [] {
      WakeFirst(pcs[t := q], lock.waiters);
    }
  }

  lemma WakeFirst(pcs: map<Thread, Pc>, xs: seq<Thread>)
    requires xs != [] && NoDup(xs) && Elems(xs) == Group(pcs, AsleepOnLock)
    ensures var pcs' := Wake(pcs, xs);
            && Group(pcs', Owns) == Group(pcs, Owns) && Group(pcs', Holds) == Group(pcs, Holds)
            && NoDup(xs[1..]) && Elems(xs[1..]) == Group(pcs', AsleepOnLock)
            && |Group(pcs', AwakeOnLock)| == |Group(pcs, AwakeOnLock)| + 1
            && xs[0] in pcs && AsleepOnLock(pcs[xs[0]])
  {
    Popped(xs);
    assert xs[0] in Group(pcs, AsleepOnLock);
    hide NoDup, Elems, Group;
    var q := Acquire(Awake, From(pcs[xs[0]]));
    Regroup(pcs, xs[0], q, Owns);
    Regroup(pcs, xs[0], q, Holds);
    Regroup(pcs, xs[0], q, AsleepOnLock);
    Regroup(pcs, xs[0], q, AwakeOnLock);
  }

  // ---- waits and signals ----

  /** Where a thread's wait stands, its own semaphore and its program counter agree. */
  ghost predicate ThreadOk(m: Monitor, t: Thread)
    requires Shaped(m) && t in m.pcs
  {
    var p, g, own := m.pcs[t], m.stage[t], m.own[t];
    && WaitsOn(p) == StageOn(g)
    && own == Sema(One(g.Posted?), if p.Waiting? && p.d.Asleep? then [t] else [])
    && (p.Waiting? && p.d.Asleep? ==> !g.Posted?)
    && (g.Taken? ==> g.signaller in m.pcs && m.pcs[g.signaller] == Signal(g.c, t))
    && (p.Signal? ==> p.w in m.pcs && m.stage[p.w] == Taken(p.c, t))
    && (WaitsOn(p).Some? ==> WaitsOn(p).value in m.conds)
    && (Resumes(p).Some? ==> Resumes(p).value in m.conds)
  }

  /** 1 when a signal has taken T's waiter on C and T has not yet returned from that wait. */
  ghost function Pending(m: Monitor, c: Cond, t: Thread): int
    requires Shaped(m)
  {
    One(t in m.pcs && (Resumes(m.pcs[t]) == Some(c) || (StageOn(m.stage[t]) == Some(c) && !m.stage[t].Listed?)))
  }

  /** Signals take waiters in the order of arrival, and each return has had its own signal. */
  ghost predicate CondOk(m: Monitor, c: Cond)
    requires Shaped(m) && c in m.conds
  {
    && m.arrived[c] == m.taken[c] + m.conds[c]
    && NoDup(m.conds[c])
    && Elems(m.conds[c]) == ListedOn(m, c)
    && Counted(m, c)
  }

  ghost function ListedOn(m: Monitor, c: Cond): set<Thread>
    requires Shaped(m)
  {
    set t | t in m.pcs && m.stage[t] == Listed(c)
  }

  ghost predicate Counted(m: Monitor, c: Cond)
    requires Shaped(m) && c in m.conds
  {
    forall t :: multiset(m.taken[c])[t] == multiset(m.returned[c])[t] + Pending(m, c, t)
  }

  ghost predicate Inv(m: Monitor) {
    && Shaped(m)
    && LockInv(m.lock, m.holder, m.pcs)
    && ThreadsOk(m)
    && CondsOk(m)
  }

  ghost predicate ThreadsOk(m: Monitor)
    requires Shaped(m)
  {
    forall t :: t in m.pcs ==> ThreadOk(m, t)
  }

  ghost predicate CondsOk(m: Monitor)
    requires Shaped(m)
  {
    forall c :: c in m.conds ==> CondOk(m, c)
  }

  lemma ThreadAt(m: Monitor, t: Thread)
    requires Shaped(m) && ThreadsOk(m) && t in m.pcs
    ensures ThreadOk(m, t)
  {
  }

  /** A listed thread is a thread of the monitor, at the stage of being listed. */
  lemma ListedAt(m: Monitor, c: Cond, t: Thread)
    requires Shaped(m) && CondsOk(m) && c in m.conds
    ensures t in m.conds[c] <==> t in m.pcs && m.stage[t] == Listed(c)
  {
    assert CondOk(m, c);
    assert t in m.conds[c] <==> t in Elems(m.conds[c]);
    assert t in m.conds[c] <==> t in ListedOn(m, c);
  }

  lemma CountedAt(m: Monitor, c: Cond, t: Thread)
    requires Shaped(m) && c in m.conds && Counted(m, c)
    ensures multiset(m.taken[c])[t] == multiset(m.returned[c])[t] + Pending(m, c, t)
  {
  }

  lemma CondAt(m: Monitor, c: Cond)
    requires Shaped(m) && CondsOk(m) && c in m.conds
    ensures CondOk(m, c)
  {
  }

  lemma LockStep(m: Monitor, op: Op)
    requires Inv(m) && Enabled(m, op)
    ensures var m' := Step(m, op); LockInv(m'.lock, m'.holder, m'.pcs)
  {
    hide LockInv, ThreadsOk, CondsOk;
    var t, p := op.t, m.pcs[op.t];
    ThreadAt(m, t);
    match op {
      case LockDown(_) => TakeLock(m.lock, m.holder, m.pcs, t, From(p));
      case LockTryDown(_) => TakeLock(m.lock, m.holder, m.pcs, t, None);
      case SetHolder(_) => SetHolderInv(m.lock, m.holder, m.pcs, t);
      case ClearHolder(_) => ClearHolderInv(m.lock, m.holder, m.pcs, t, if p.Inside? then Release else Leaving(p.c));
      case LockUp(_) => LockUpInv(m.lock, m.holder, m.pcs, t, if p.Release? then Idle else Waiting(p.c, Entering));
      case Enqueue(_, c) => LockNeutral(m.lock, m.holder, m.pcs, t, Queued(c));
      case WaitDown(_) =>
        LockNeutral(m.lock, m.holder, m.pcs, t, Waiting(p.c, Asleep));
        LockNeutral(m.lock, m.holder, m.pcs, t, Acquire(Entering, Some(p.c)));
      case Dequeue(_, c) =>
        if m.conds[c] != [] {
          LockNeutral(m.lock, m.holder, m.pcs, t, Signal(c, m.conds[c][0]));
        }
      case WaitUp(_) =>
        LockNeutral(m.lock, m.holder, m.pcs, t, Inside);
        ThreadAt(m, p.w);
        if m.own[p.w].waiters != [] {
          LockNeutral(m.lock, m.holder, m.pcs[t := Inside], p.w, Waiting(p.c, Awake));
        }
    }
  }

  lemma ShapeStep(m: Monitor, op: Op)
    requires Inv(m) && Enabled(m, op)
    ensures Shaped(Step(m, op)) && Step(m, op).pcs.Keys == m.pcs.Keys && Step(m, op).conds.Keys == m.conds.Keys
  {
    hide LockInv, ThreadsOk, CondsOk;
    ThreadAt(m, op.t);
    if op.Dequeue? && m.conds[op.c] != [] {
      ListedAt(m, op.c, m.conds[op.c][0]);
    }
    if op.WaitUp? {
      ThreadAt(m, m.pcs[op.t].w);
    }
  }

  lemma ThreadStep(m: Monitor, op: Op, u: Thread)
    requires Inv(m) && Enabled(m, op) && u in m.pcs
    requires Shaped(Step(m, op)) && u in Step(m, op).pcs
    requires op.LockDown? || op.LockTryDown? || op.SetHolder? || op.ClearHolder?
    ensures ThreadOk(Step(m, op), u)
  {
    hide LockInv, ThreadsOk, CondsOk;
    ThreadAt(m, op.t);
    ThreadAt(m, u);
  }

  lemma LockUpThread(m: Monitor, t: Thread, u: Thread)
    requires Inv(m) && Enabled(m, LockUp(t)) && u in m.pcs
    requires Shaped(Step(m, LockUp(t))) && u in Step(m, LockUp(t)).pcs
    ensures ThreadOk(Step(m, LockUp(t)), u)
  {
    hide LockInv, ThreadsOk, CondsOk;
    FirstAsleep(m);
    ThreadAt(m, t);
    ThreadAt(m, u);
    if m.lock.waiters != [] {
      ThreadAt(m, m.lock.waiters[0]);
    }
  }

  lemma EnqueueThread(m: Monitor, t: Thread, c: Cond, u: Thread)
    requires Inv(m) && Enabled(m, Enqueue(t, c)) && u in m.pcs
    requires Shaped(Step(m, Enqueue(t, c))) && u in Step(m, Enqueue(t, c)).pcs
    ensures ThreadOk(Step(m, Enqueue(t, c)), u)
  {
    hide LockInv, ThreadsOk, CondsOk;
    ThreadAt(m, t);
    ThreadAt(m, u);
  }

  lemma WaitDownThread(m: Monitor, t: Thread, u: Thread)
    requires Inv(m) && Enabled(m, WaitDown(t)) && u in m.pcs
    requires Shaped(Step(m, WaitDown(t))) && u in Step(m, WaitDown(t)).pcs
    ensures ThreadOk(Step(m, WaitDown(t)), u)
  {
    hide LockInv, ThreadsOk, CondsOk;
    ThreadAt(m, t);
    ThreadAt(m, u);
  }

  lemma DequeueThread(m: Monitor, t: Thread, c: Cond, u: Thread)
    requires Inv(m) && Enabled(m, Dequeue(t, c)) && u in m.pcs
    requires Shaped(Step(m, Dequeue(t, c))) && u in Step(m, Dequeue(t, c)).pcs
    ensures ThreadOk(Step(m, Dequeue(t, c)), u)
  {
    hide LockInv, ThreadsOk, CondsOk;
    ThreadAt(m, t);
    ThreadAt(m, u);
    if m.conds[c] != [] {
      ListedAt(m, c, m.conds[c][0]);
      ThreadAt(m, m.conds[c][0]);
    }
  }

  lemma WaitUpThread(m: Monitor, t: Thread, u: Thread)
    requires Inv(m) && Enabled(m, WaitUp(t)) && u in m.pcs
    requires Shaped(Step(m, WaitUp(t))) && u in Step(m, WaitUp(t)).pcs
    ensures ThreadOk(Step(m, WaitUp(t)), u)
  {
    hide LockInv, ThreadsOk, CondsOk;
    ThreadAt(m, t);
    ThreadAt(m, u);
    ThreadAt(m, m.pcs[t].w);
  }

  /** As seen from C, thread T stands where it stood. */
  ghost predicate SameStand(m: Monitor, m': Monitor, c: Cond, t: Thread)
    requires Shaped(m) && Shaped(m')
  {
    && Pending(m', c, t) == Pending(m, c, t)
    && ((t in m'.pcs && m'.stage[t] == Listed(c)) <==> (t in m.pcs && m.stage[t] == Listed(c)))
  }

  ghost predicate SameLists(m: Monitor, m': Monitor, c: Cond)
    requires Shaped(m) && Shaped(m') && c in m.conds && c in m'.conds
  {
    && m'.conds[c] == m.conds[c] && m'.arrived[c] == m.arrived[c]
    && m'.taken[c] == m.taken[c] && m'.returned[c] == m.returned[c]
  }

  lemma CondFrame(m: Monitor, m': Monitor, c: Cond)
    requires Shaped(m) && Shaped(m') && c in m.conds && c in m'.conds && CondsOk(m) && SameLists(m, m', c)
    requires forall t :: SameStand(m, m', c, t)
    ensures CondOk(m', c)
  {
    CondAt(m, c);
    assert ListedOn(m', c) == ListedOn(m, c) by {
      forall t ensures t in ListedOn(m', c) <==> t in ListedOn(m, c) {
        assert SameStand(m, m', c, t);
      }
    }
    forall t ensures multiset(m'.taken[c])[t] == multiset(m'.returned[c])[t] + Pending(m', c, t) {
      assert SameStand(m, m', c, t);
      CountedAt(m, c, t);
    }
  }

  /** Steps on the lock do not move any thread's wait. */
  lemma LockStand(m: Monitor, op: Op, c: Cond, u: Thread)
    requires Inv(m) && Enabled(m, op) && Shaped(Step(m, op)) && c in m.conds
    requires op.LockDown? || op.LockTryDown? || op.ClearHolder? || (op.SetHolder? && m.pcs[op.t].from != Some(c))
    ensures SameStand(m, Step(m, op), c, u)
  {
    hide LockInv, ThreadsOk, CondsOk;
    ThreadAt(m, op.t);
  }

  lemma LockUpStand(m: Monitor, t: Thread, c: Cond, u: Thread)
    requires Inv(m) && Enabled(m, LockUp(t)) && Shaped(Step(m, LockUp(t))) && c in m.conds
    ensures SameStand(m, Step(m, LockUp(t)), c, u)
  {
    hide ThreadsOk, CondsOk;
    ThreadAt(m, t);
    FirstAsleep(m);
  }

  lemma FirstAsleep(m: Monitor)
    requires LockInv(m.lock, m.holder, m.pcs)
    ensures m.lock.waiters != [] ==> m.lock.waiters[0] in m.pcs && AsleepOnLock(m.pcs[m.lock.waiters[0]])
  {
    if m.lock.waiters != [] {
      assert m.lock.waiters[0] in Elems(m.lock.waiters) && m.lock.waiters[0] in Group(m.pcs, AsleepOnLock);
    }
  }

  /** Waits and signals on one condition variable do not move waits on another. */
  lemma OtherStand(m: Monitor, op: Op, c: Cond, u: Thread)
    requires Inv(m) && Enabled(m, op) && Shaped(Step(m, op)) && c in m.conds
    requires (op.Enqueue? || op.Dequeue?) && op.c != c
    ensures SameStand(m, Step(m, op), c, u)
  {
    hide LockInv, ThreadsOk, CondsOk;
    ThreadAt(m, op.t);
    if op.Dequeue? && m.conds[op.c] != [] {
      ListedAt(m, op.c, m.conds[op.c][0]);
      ThreadAt(m, m.conds[op.c][0]);
    }
  }

  /** A wait that goes on from one stage to the next after its signal still has just that signal. */
  lemma WaitStand(m: Monitor, op: Op, c: Cond, u: Thread)
    requires Inv(m) && Enabled(m, op) && Shaped(Step(m, op)) && c in m.conds
    requires op.WaitDown? || op.WaitUp?
    ensures SameStand(m, Step(m, op), c, u)
  {
    hide LockInv, ThreadsOk, CondsOk;
    ThreadAt(m, op.t);
    if op.WaitUp? {
      ThreadAt(m, m.pcs[op.t].w);
    }
  }

  /** Returning from a wait uses up its signal; being taken adds one. */
  lemma ReturnStand(m: Monitor, t: Thread, u: Thread)
    requires Inv(m) && Enabled(m, SetHolder(t)) && m.pcs[t].from.Some? && Shaped(Step(m, SetHolder(t)))
    ensures var m', c := Step(m, SetHolder(t)), m.pcs[t].from.value;
            && Pending(m, c, u) == Pending(m', c, u) + One(u == t)
            && (u in ListedOn(m', c) <==> u in ListedOn(m, c))
  {
    hide LockInv, ThreadsOk, CondsOk;
    ThreadAt(m, t);
  }

  lemma ReturnCond(m: Monitor, t: Thread)
    requires Inv(m) && Enabled(m, SetHolder(t)) && m.pcs[t].from.Some? && Shaped(Step(m, SetHolder(t)))
    requires m.pcs[t].from.value in m.conds
    ensures CondOk(Step(m, SetHolder(t)), m.pcs[t].from.value)
  {
    hide LockInv, ThreadsOk, CondsOk, Pending, Elems, NoDup;
    var m', c := Step(m, SetHolder(t)), m.pcs[t].from.value;
    CondAt(m, c);
    hide Counted;
    assert ListedOn(m', c) == ListedOn(m, c);
    assert Counted(m', c) by {
      ReturnCount(m, t);
    }
  }

  lemma ReturnCount(m: Monitor, t: Thread)
    requires Inv(m) && Enabled(m, SetHolder(t)) && m.pcs[t].from.Some? && Shaped(Step(m, SetHolder(t)))
    requires m.pcs[t].from.value in m.conds && Counted(m, m.pcs[t].from.value)
    ensures Counted(Step(m, SetHolder(t)), m.pcs[t].from.value)
  {
    hide Inv, Pending, ListedOn;
    var m', c := Step(m, SetHolder(t)), m.pcs[t].from.value;
    forall u ensures multiset(m'.taken[c])[u] == multiset(m'.returned[c])[u] + Pending(m', c, u) {
      ReturnStand(m, t, u);
      CountedAt(m, c, u);
      assert multiset(m'.returned[c])[u] == multiset(m.returned[c])[u] + One(u == t);
    }
  }

  lemma EnqueueStand(m: Monitor, t: Thread, c: Cond, u: Thread)
    requires Inv(m) && Enabled(m, Enqueue(t, c)) && Shaped(Step(m, Enqueue(t, c)))
    ensures var m' := Step(m, Enqueue(t, c));
            && Pending(m', c, u) == Pending(m, c, u)
            && (u in ListedOn(m', c) <==> u in ListedOn(m, c) + {t}) && t !in ListedOn(m, c)
  {
    hide LockInv, ThreadsOk, CondsOk;
    ThreadAt(m, t);
  }

  lemma EnqueueCond(m: Monitor, t: Thread, c: Cond)
    requires Inv(m) && Enabled(m, Enqueue(t, c)) && Shaped(Step(m, Enqueue(t, c)))
    ensures CondOk(Step(m, Enqueue(t, c)), c)
  {
    hide LockInv, ThreadsOk, CondsOk, Pending, Elems, NoDup, ListedOn;
    var m' := Step(m, Enqueue(t, c));
    CondAt(m, c);
    forall u ensures u in ListedOn(m', c) <==> u in ListedOn(m, c) + {t} {
      EnqueueStand(m, t, c, u);
    }
    EnqueueStand(m, t, c, t);
    Appended(m.conds[c], t);
    forall u ensures multiset(m'.taken[c])[u] == multiset(m'.returned[c])[u] + Pending(m', c, u) {
      EnqueueStand(m, t, c, u);
      CountedAt(m, c, u);
    }
  }

  lemma DequeueStand(m: Monitor, t: Thread, c: Cond, u: Thread)
    requires Inv(m) && Enabled(m, Dequeue(t, c)) && Shaped(Step(m, Dequeue(t, c))) && m.conds[c] != []
    ensures var m', w := Step(m, Dequeue(t, c)), m.conds[c][0];
            && Pending(m', c, u) == Pending(m, c, u) + One(u == w)
            && (u in ListedOn(m', c) <==> u in ListedOn(m, c) - {w})
  {
    hide LockInv, ThreadsOk, CondsOk;
    ThreadAt(m, t);
    ListedAt(m, c, m.conds[c][0]);
    ThreadAt(m, m.conds[c][0]);
  }

  lemma DequeueCond(m: Monitor, t: Thread, c: Cond)
    requires Inv(m) && Enabled(m, Dequeue(t, c)) && Shaped(Step(m, Dequeue(t, c))) && m.conds[c] != []
    ensures CondOk(Step(m, Dequeue(t, c)), c)
  {
    hide LockInv, ThreadsOk, CondsOk, Pending, Elems, NoDup, ListedOn;
    var m', w := Step(m, Dequeue(t, c)), m.conds[c][0];
    CondAt(m, c);
    Popped(m.conds[c]);
    assert m.conds[c] == [w] + m.conds[c][1..];
    forall u ensures u in ListedOn(m', c) <==> u in ListedOn(m, c) - {w} {
      DequeueStand(m, t, c, u);
    }
    hide Counted;
    assert Counted(m', c) by {
      DequeueCount(m, t, c);
    }
  }

  lemma DequeueCount(m: Monitor, t: Thread, c: Cond)
    requires Inv(m) && Enabled(m, Dequeue(t, c)) && Shaped(Step(m, Dequeue(t, c))) && m.conds[c] != [] && Counted(m, c)
    ensures Counted(Step(m, Dequeue(t, c)), c)
  {
    hide Inv, Pending, ListedOn;
    var m', w := Step(m, Dequeue(t, c)), m.conds[c][0];
    forall u ensures multiset(m'.taken[c])[u] == multiset(m'.returned[c])[u] + Pending(m', c, u) {
      DequeueStand(m, t, c, u);
      CountedAt(m, c, u);
      assert multiset(m'.taken[c])[u] == multiset(m.taken[c])[u] + One(u == w);
    }
  }

  lemma CondStep(m: Monitor, op: Op, c: Cond)
    requires Inv(m) && Enabled(m, op) && c in m.conds && Shaped(Step(m, op)) && c in Step(m, op).conds
    ensures CondOk(Step(m, op), c)
  {
    hide LockInv, ThreadsOk, CondsOk, CondOk, Pending, SameStand;
    var m' := Step(m, op);
    if op.SetHolder? && m.pcs[op.t].from == Some(c) {
      ReturnCond(m, op.t);
    } else if op.Enqueue? && op.c == c {
      EnqueueCond(m, op.t, c);
    } else if op.Dequeue? && op.c == c && m.conds[c] != [] {
      DequeueCond(m, op.t, c);
    } else {
      forall u ensures SameStand(m, m', c, u) {
        StandStep(m, op, c, u);
      }
      CondFrame(m, m', c);
    }
  }

  lemma StandStep(m: Monitor, op: Op, c: Cond, u: Thread)
    requires Inv(m) && Enabled(m, op) && c in m.conds && Shaped(Step(m, op))
    requires !(op.SetHolder? && m.pcs[op.t].from == Some(c)) && !(op.Enqueue? && op.c == c)
    requires !(op.Dequeue? && op.c == c && m.conds[c] != [])
    ensures SameStand(m, Step(m, op), c, u)
  {
    hide Inv, Pending;
    match op {
      case LockDown(_) => LockStand(m, op, c, u);
      case LockTryDown(_) => LockStand(m, op, c, u);
      case SetHolder(_) => LockStand(m, op, c, u);
      case ClearHolder(_) => LockStand(m, op, c, u);
      case LockUp(_) => LockUpStand(m, op.t, c, u);
      case Enqueue(_, _) => OtherStand(m, op, c, u);
      case WaitDown(_) => WaitStand(m, op, c, u);
      case Dequeue(_, d) =>
        if d != c {
          OtherStand(m, op, c, u);
        }
      case WaitUp(_) => WaitStand(m, op, c, u);
    }
  }

  // ---- every step, every run ----

  lemma StepInv(m: Monitor, op: Op)
    requires Inv(m) && Enabled(m, op)
    ensures Inv(Step(m, op))
  {
    ShapeStep(m, op);
    LockStep(m, op);
    var m' := Step(m, op);
    hide LockInv, ThreadOk, CondOk;
    forall u | u in m'.pcs ensures ThreadOk(m', u) {
      ThreadStepAny(m, op, u);
    }
    forall c | c in m'.conds ensures CondOk(m', c) {
      CondStep(m, op, c);
    }
  }

  lemma ThreadStepAny(m: Monitor, op: Op, u: Thread)
    requires Inv(m) && Enabled(m, op) && u in m.pcs && Shaped(Step(m, op)) && u in Step(m, op).pcs
    ensures ThreadOk(Step(m, op), u)
  {
    hide Inv, ThreadOk;
    match op {
      case LockDown(_) => ThreadStep(m, op, u);
      case LockTryDown(_) => ThreadStep(m, op, u);
      case SetHolder(_) => ThreadStep(m, op, u);
      case ClearHolder(_) => ThreadStep(m, op, u);
      case LockUp(_) => LockUpThread(m, op.t, u);
      case Enqueue(_, c) => EnqueueThread(m, op.t, c, u);
      case WaitDown(_) => WaitDownThread(m, op.t, u);
      case Dequeue(_, c) => DequeueThread(m, op.t, c, u);
      case WaitUp(_) => WaitUpThread(m, op.t, u);
    }
  }

  ghost predicate Initial(m: Monitor) {
    && Shaped(m) && m.lock == Sema(1, []) && m.holder == None
    && (forall t :: t in m.pcs ==> m.pcs[t] == Idle && m.stage[t] == NoWait && m.own[t] == Sema(0, []))
    && (forall c :: c in m.conds ==> m.conds[c] == m.arrived[c] == m.taken[c] == m.returned[c] == [])
  }

  /** A new lock with these threads, none of them inside, and these condition variables. */
  function Start(threads: set<Thread>, conds: set<Cond>): Monitor {
    var none := map c | c in conds :: [];
    Monitor(Sema(1, []), None, map t | t in threads :: Idle, map t | t in threads :: Sema(0, []),
            none, map t | t in threads :: NoWait, none, none, none)
  }

  /** lock_init and cond_init establish the invariant, whatever the threads and condition variables. */
  lemma StartInv(threads: set<Thread>, conds: set<Cond>)
    ensures Initial(Start(threads, conds)) && Inv(Start(threads, conds))
  {
    InitialInv(Start(threads, conds));
  }

  lemma InitialInv(m: Monitor)
    requires Initial(m)
    ensures Inv(m)
  {
    assert Group(m.pcs, Owns) == {} && Group(m.pcs, Holds) == {} && Group(m.pcs, AsleepOnLock) == {};
    forall c | c in m.conds ensures CondOk(m, c) {
      assert ListedOn(m, c) == {};
    }
  }

  ghost predicate IsRun(ms: seq<Monitor>, ops: seq<Op>) {
    && |ms| == |ops| + 1
    && forall i :: 0 <= i < |ops| ==> Enabled(ms[i], ops[i]) && ms[i + 1] == Step(ms[i], ops[i])
  }

  /** In every interleaving the lock has one owner or one unit, and every wait has had one signal, in order. */
  lemma {:induction false} RunInv(ms: seq<Monitor>, ops: seq<Op>)
    requires IsRun(ms, ops) && Inv(ms[0])
    ensures forall i :: 0 <= i < |ms| ==> Inv(ms[i])
  {
    hide Inv, Step, Enabled;
    if ops != [] {
      var k := |ops| - 1;
      RunInv(ms[..k + 1], ops[..k]);
      assert ms[..k + 1][k] == ms[k];
      StepInv(ms[k], ops[k]);
    }
  }

  /** At any moment at most one thread is past acquire and before release; it is the
      holder or is about to be, or has just stopped being, and the assertions that the
      current thread holds the lock succeed. */
  lemma MutualExclusion(m: Monitor, t: Thread)
    requires Inv(m) && t in m.pcs && Owns(m.pcs[t])
    ensures m.lock.value == 0 && (forall u :: u in m.pcs && Owns(m.pcs[u]) ==> u == t)
    ensures m.holder == if Holds(m.pcs[t]) then Some(t) else None
  {
    hide ThreadsOk, CondsOk, LockInv;
    NoHolder(m.lock, m.holder, m.pcs, t);
    OneOwner(m.lock, m.holder, m.pcs, t, t);
    forall u | u in m.pcs && Owns(m.pcs[u]) ensures u == t {
      OneOwner(m.lock, m.holder, m.pcs, t, u);
    }
  }

  predicate Sleeps(p: Pc) {
    (p.Acquire? || p.Waiting?) && p.d.Asleep?
  }

  /** What a thread at P does next, when it is not asleep. */
  function NextOp(p: Pc, t: Thread): Op {
    match p
    case Idle => LockDown(t)
    case Acquire(_, _) => LockDown(t)
    case Acquired(_) => SetHolder(t)
    case Inside => ClearHolder(t)
    case Release => LockUp(t)
    case Queued(_) => ClearHolder(t)
    case Leaving(_) => LockUp(t)
    case Waiting(_, _) => WaitDown(t)
    case Signal(_, _) => WaitUp(t)
  }

  /** A thread that is not asleep can always go on. */
  lemma NeverStuck(m: Monitor, t: Thread)
    requires Inv(m) && t in m.pcs && !Sleeps(m.pcs[t])
    ensures Enabled(m, NextOp(m.pcs[t], t))
  {
    hide LockInv, ThreadsOk, CondsOk;
    ThreadAt(m, t);
  }

  /** Nobody sleeps on a lock that nobody will hand on: some thread owns it, or has been woken to take it. */
  lemma SleeperHasWaker(m: Monitor, t: Thread)
    requires Inv(m) && t in m.pcs && AsleepOnLock(m.pcs[t])
    ensures exists u :: u in m.pcs && (Owns(m.pcs[u]) || AwakeOnLock(m.pcs[u]))
  {
    hide ThreadsOk, CondsOk;
    assert t in Group(m.pcs, AsleepOnLock);
    NoneListed(m.lock.waiters);
    var g := Group(m.pcs, Owns) + Group(m.pcs, AwakeOnLock);
    hide Elems, NoDup;
    if m.lock.value == 0 {
      assert Group(m.pcs, Owns) != {};
    } else {
      assert Group(m.pcs, AwakeOnLock) != {};
    }
    var u :| u in g;
  }

  /** A waiter whose signal has been posted is not asleep on it. */
  lemma PostedIsAwake(m: Monitor, t: Thread)
    requires Inv(m) && t in m.pcs && m.own[t].value > 0
    ensures m.stage[t].Posted? && (m.pcs[t].Queued? || m.pcs[t].Leaving? || (m.pcs[t].Waiting? && !m.pcs[t].d.Asleep?))
  {
    hide LockInv, ThreadsOk, CondsOk;
    ThreadAt(m, t);
  }

  /** A wait returns with the lock held, and by then as many signals as returns have taken
      the thread's waiter. */
  lemma WaitReturns(m: Monitor, t: Thread, c: Cond)
    requires Inv(m) && Enabled(m, SetHolder(t)) && m.pcs[t].from == Some(c)
    ensures var m' := Step(m, SetHolder(t));
            && c in m'.conds && m'.holder == Some(t) && m'.returned[c] == m.returned[c] + [t]
            && multiset(m'.taken[c])[t] == multiset(m'.returned[c])[t]
            && multiset(m.taken[c])[t] == multiset(m.returned[c])[t] + 1
  {
    hide LockInv, ThreadsOk, CondsOk;
    ThreadAt(m, t);
    CondAt(m, c);
    CountedAt(m, c, t);
  }

  /** While a thread is inside, no other thread touches the holder or the lists of waiters. */
  lemma OthersKeepOut(m: Monitor, op: Op, t: Thread)
    requires Inv(m) && Enabled(m, op) && t in m.pcs && Holds(m.pcs[t]) && op.t != t
    ensures var m' := Step(m, op);
            && m'.holder == m.holder && m'.conds == m.conds && m'.taken == m.taken && m'.arrived == m.arrived
            && t in m'.pcs && m'.pcs[t] == m.pcs[t]
  {
    hide LockInv, ThreadsOk, CondsOk;
    MutualExclusion(m, t);
    FirstAsleep(m);
    if op.WaitUp? {
      ThreadAt(m, op.t);
    }
  }

  /** Every step that T itself takes is one of cond_broadcast's on C. */
  ghost predicate Broadcasting(ops: seq<Op>, t: Thread, c: Cond) {
    forall i :: 0 <= i < |ops| ==> ops[i].t == t ==> ops[i] == Dequeue(t, c) || ops[i] == WaitUp(t)
  }

  /** How many turns of its loop T has begun. */
  ghost function Turns(ops: seq<Op>, t: Thread, c: Cond): nat {
    if ops == [] then 0 else Turns(ops[..|ops| - 1], t, c) + if ops[|ops| - 1] == Dequeue(t, c) then 1 else 0
  }

  lemma BroadcastStep(m: Monitor, op: Op, t: Thread, c: Cond)
    requires Inv(m) && Enabled(m, op) && c in m.conds && t in m.pcs && (m.pcs[t].Inside? || m.pcs[t].Signal?)
    requires op.t == t ==> op == Dequeue(t, c) || op == WaitUp(t)
    ensures var m' := Step(m, op);
            && t in m'.pcs && (m'.pcs[t].Inside? || m'.pcs[t].Signal?)
            && c in m'.conds && c in m'.arrived && c in m.arrived && m'.arrived[c] == m.arrived[c]
            && m'.conds[c] == if op == Dequeue(t, c) && m.conds[c] != [] then m.conds[c][1..] else m.conds[c]
  {
    if op.t != t {
      OthersKeepOut(m, op, t);
    } else {
      hide LockInv, ThreadsOk, CondsOk;
      ThreadAt(m, t);
      if op.WaitUp? {
        ThreadAt(m, m.pcs[t].w);
      }
    }
  }

  /** Each turn takes the first waiter off the list, and nothing else changes the list: so
      the loop ends, after as many turns as there were waiters. */
  lemma {:induction false} BroadcastRun(ms: seq<Monitor>, ops: seq<Op>, t: Thread, c: Cond)
    requires IsRun(ms, ops) && Inv(ms[0]) && Broadcasting(ops, t, c)
    requires c in ms[0].conds && t in ms[0].pcs && ms[0].pcs[t].Inside?
    ensures var m, m' := ms[0], ms[|ops|];
            && Inv(m') && t in m'.pcs && (m'.pcs[t].Inside? || m'.pcs[t].Signal?)
            && c in m'.conds && m'.arrived[c] == m.arrived[c]
            && m'.conds[c] == if Turns(ops, t, c) <= |m.conds[c]| then m.conds[c][Turns(ops, t, c)..] else []
  {
    hide Inv, Step, Enabled;
    RunInv(ms, ops);
    if ops != [] {
      var k := |ops| - 1;
      BroadcastRun(ms[..k + 1], ops[..k], t, c);
      BroadcastStep(ms[k], ops[k], t, c);
    }
  }

  /** While a thread is inside, no waiter that was taken is still without its sema_up. */
  lemma TakenArePosted(m: Monitor, t: Thread)
    requires Inv(m) && t in m.pcs && m.pcs[t].Inside?
    ensures forall w :: w in m.stage ==> !m.stage[w].Taken?
  {
    hide CondsOk, LockInv;
    MutualExclusion(m, t);
    forall w | w in m.stage ensures !m.stage[w].Taken? {
      ThreadAt(m, w);
    }
  }

  /** cond_broadcast, whatever runs in between: when the list is empty, exactly the
      threads that were waiting have been taken off it, in order, and when its last
      cond_signal has returned, each of them has been posted. */
  lemma Broadcast(ms: seq<Monitor>, ops: seq<Op>, t: Thread, c: Cond)
    requires IsRun(ms, ops) && Inv(ms[0]) && Broadcasting(ops, t, c)
    requires c in ms[0].conds && t in ms[0].pcs && ms[0].pcs[t].Inside?
    requires c in ms[|ops|].conds && ms[|ops|].conds[c] == []
    ensures c in ms[|ops|].taken && ms[|ops|].taken[c] == ms[0].taken[c] + ms[0].conds[c]
    ensures t in ms[|ops|].pcs
    ensures ms[|ops|].pcs[t].Inside? ==> forall w :: w in ms[|ops|].stage ==> !ms[|ops|].stage[w].Taken?
  {
    BroadcastRun(ms, ops, t, c);
    if ms[|ops|].pcs[t].Inside? {
      TakenArePosted(ms[|ops|], t);
    }
    hide LockInv, ThreadsOk, CondsOk;
    CondAt(ms[0], c);
    CondAt(ms[|ops|], c);
  }
}
