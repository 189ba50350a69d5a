/** That threads get on: what follows when a thread runs its own steps, who is
    served first, and that a signalled waiter returns. */
module Progress {
  import opened Basics
  import Semaphores
  import opened Monitors

  type Thread = Semaphores.Thread

  /** T takes its next step; see NeverStuck. */
  ghost function Next(m: Monitor, t: Thread): Monitor {
    if t in m.pcs && Enabled(m, NextOp(m.pcs[t], t)) then Step(m, NextOp(m.pcs[t], t)) else m
  }

  /** What a thread may choose to do: try or wait for the lock when it has none, and when it is
      inside give it back, wait on any condition, or signal it, waiters or not. */
  lemma Choices(m: Monitor, t: Thread)
    requires Inv(m) && t in m.pcs
    ensures m.pcs[t].Idle? ==> Enabled(m, LockDown(t)) && Enabled(m, LockTryDown(t))
    ensures m.pcs[t].Inside? ==> Enabled(m, ClearHolder(t))
    ensures m.pcs[t].Inside? ==> forall c :: c in m.conds ==> Enabled(m, Enqueue(t, c)) && Enabled(m, Dequeue(t, c))
  {
    hide LockInv, ThreadsOk, CondsOk;
  }

  /** N steps of T and of no other thread. */
  ghost function Alone(m: Monitor, t: Thread, n: nat): Monitor
    decreases n
  {
    if n == 0 then m else Alone(Next(m, t), t, n - 1)
  }

  lemma {:induction false} AloneInv(m: Monitor, t: Thread, n: nat)
    requires Inv(m)
    ensures Inv(Alone(m, t, n))
    decreases n
  {
    hide Inv, Step, Enabled;
    if n > 0 {
      if t in m.pcs && Enabled(m, NextOp(m.pcs[t], t)) {
        StepInv(m, NextOp(m.pcs[t], t));
      }
      AloneInv(Next(m, t), t, n - 1);
    }
  }

  lemma AloneTwo(m: Monitor, t: Thread)
    ensures Alone(m, t, 2) == Next(Next(m, t), t)
  {
    assert Alone(m, t, 2) == Alone(Next(m, t), t, 1) == Alone(Next(Next(m, t), t), t, 0);
  }

  lemma AloneThree(m: Monitor, t: Thread)
    ensures Alone(m, t, 3) == Alone(Next(m, t), t, 2)
  {
  }

  /** What the end of lock_acquire leaves, when it may end a wait on FROM. */
  ghost predicate Returned(m: Monitor, m': Monitor, t: Thread, from: Option<Cond>) {
    && t in m'.pcs && m'.pcs[t] == Inside && m'.holder == Some(t) && m'.lock.value == 0
    && m'.conds == m.conds && m'.taken == m.taken && m'.arrived == m.arrived && m'.returned.Keys == m.returned.Keys
    && (from.Some? ==> from.value in m.returned)
    && forall c :: c in m.returned ==> m'.returned[c] == m.returned[c] + if from == Some(c) then [t] else []
  }

  lemma TakesUnit(m: Monitor, t: Thread)
    requires Shaped(m) && t in m.pcs && CanLockDown(m.pcs[t]) && m.lock.value == 1
    ensures Next(m, t) == m.(lock := m.lock.(value := 0), pcs := m.pcs[t := Acquired(From(m.pcs[t]))])
  {
  }

  lemma SetsHolder(m: Monitor, t: Thread)
    requires Shaped(m) && t in m.pcs && m.pcs[t].Acquired? && m.lock.value == 0
    requires m.pcs[t].from.Some? ==> m.pcs[t].from.value in m.conds
    ensures Returned(m, Next(m, t), t, m.pcs[t].from)
  {
  }

  /** A thread that wants the lock and is not asleep takes it, when it is free, in two steps of
      its own; if it was about to return from a wait, it has returned. */
  lemma AcquiresAlone(m: Monitor, t: Thread)
    requires Inv(m) && t in m.pcs && CanLockDown(m.pcs[t]) && m.lock.value == 1
    ensures Returned(m, Alone(m, t, 2), t, From(m.pcs[t]))
  {
    hide LockInv, ThreadsOk, CondsOk, Next, Alone;
    ThreadAt(m, t);
    AloneTwo(m, t);
    TakesUnit(m, t);
    SetsHolder(Next(m, t), t);
  }

  /** lock_try_acquire takes the unit if and only if there is one, and then the lock is held. */
  lemma TryAcquires(m: Monitor, t: Thread)
    requires Inv(m) && t in m.pcs && m.pcs[t].Idle?
    ensures Enabled(m, LockTryDown(t))
    ensures var m' := Step(m, LockTryDown(t));
            if m.lock.value > 0 then m'.lock.value == m.lock.value - 1 && Returned(m, Next(m', t), t, None)
            else m' == m
  {
    hide LockInv, ThreadsOk, CondsOk;
    UnitOrOwner(m);
  }

  lemma UnitOrOwner(m: Monitor)
    requires Inv(m)
    ensures m.lock.value <= 1
  {
    hide ThreadsOk, CondsOk, Group;
  }

  lemma LeavesWait(m: Monitor, t: Thread)
    requires Shaped(m) && t in m.pcs && m.pcs[t].Waiting? && !m.pcs[t].d.Asleep? && m.own[t].value > 0
    ensures Enabled(m, WaitDown(t)) && Next(m, t) == Step(m, WaitDown(t))
    ensures var m' := Next(m, t);
            && m'.lock == m.lock && m'.pcs == m.pcs[t := Acquire(Entering, Some(m.pcs[t].c))]
            && m'.conds == m.conds && m'.taken == m.taken && m'.arrived == m.arrived && m'.returned == m.returned
  {
  }

  /** A waiter whose signal has been posted returns from cond_wait, when the lock is free, in
      three steps of its own. */
  lemma WaiterReturns(m: Monitor, t: Thread)
    requires Inv(m) && t in m.pcs && m.pcs[t].Waiting? && !m.pcs[t].d.Asleep? && m.stage[t].Posted? && m.lock.value == 1
    ensures Returned(m, Alone(m, t, 3), t, Some(m.pcs[t].c))
  {
    hide LockInv, ThreadsOk, CondsOk, Step, Enabled, Next, Alone;
    ThreadAt(m, t);
    LeavesWait(m, t);
    StepInv(m, WaitDown(t));
    AloneThree(m, t);
    hide Inv, ThreadOk;
    AcquiresAlone(Next(m, t), t);
  }

  lemma ClearsHolder(m: Monitor, t: Thread)
    requires Shaped(m) && t in m.pcs && m.pcs[t].Inside?
    ensures Next(m, t) == m.(holder := None, pcs := m.pcs[t := Release])
  {
  }

  lemma GivesUnit(m: Monitor, t: Thread)
    requires Shaped(m) && t in m.pcs && m.pcs[t].Release?
    ensures Next(m, t) == m.(lock := Semaphores.Post(m.lock), pcs := Wake(m.pcs[t := Idle], m.lock.waiters))
  {
  }

  /** A thread inside gives the lock back in two steps of its own: the unit is there, nobody holds
      the lock, and the thread that has waited longest for it, if any, is awake. */
  lemma ReleasesAlone(m: Monitor, t: Thread)
    requires Inv(m) && t in m.pcs && m.pcs[t].Inside?
    ensures var m' := Alone(m, t, 2);
            && t in m'.pcs && m'.pcs[t].Idle? && m'.holder.None? && m'.lock.value == 1
            && m'.conds == m.conds && m'.taken == m.taken && m'.arrived == m.arrived && m'.returned == m.returned
            && m'.own == m.own && m'.stage == m.stage && m'.pcs.Keys == m.pcs.Keys
            && (m.lock.waiters != [] ==> m.lock.waiters[0] in m'.pcs && AwakeOnLock(m'.pcs[m.lock.waiters[0]]))
            && forall u :: u in m.pcs && u != t && !AsleepOnLock(m.pcs[u]) ==> m'.pcs[u] == m.pcs[u]
  {
    hide ThreadsOk, CondsOk, LockInv, Next, Alone;
    MutualExclusion(m, t);
    FirstAsleep(m);
    AloneTwo(m, t);
    ClearsHolder(m, t);
    GivesUnit(Next(m, t), t);
  }

  /** cond_signal by T inside: the waiter that has waited longest on C is posted and awake. */
  lemma SignalPosts(m: Monitor, t: Thread, c: Cond)
    requires Inv(m) && t in m.pcs && m.pcs[t].Inside? && c in m.conds && m.conds[c] != []
    ensures var w := m.conds[c][0];
            && Enabled(m, Dequeue(t, c))
            && var m1 := Step(m, Dequeue(t, c));
            && Inv(m1) && Enabled(m1, WaitUp(t))
            && var m2 := Step(m1, WaitUp(t));
            && Inv(m2) && t in m2.pcs && m2.pcs[t].Inside? && w in m2.pcs && w in m2.stage && w != t
            && m2.pcs[w].Waiting? && m2.pcs[w].c == c && !m2.pcs[w].d.Asleep? && m2.stage[w].Posted?
            && m2.returned == m.returned && c in m2.conds && m2.conds[c] == m.conds[c][1..]
  {
    hide LockInv, ThreadsOk, CondsOk;
    var w := m.conds[c][0];
    ListedAt(m, c, w);
    ThreadAt(m, w);
    MutualExclusion(m, t);
    StepInv(m, Dequeue(t, c));
    var m1 := Step(m, Dequeue(t, c));
    StepInv(m1, WaitUp(t));
    ThreadAt(m1, w);
    ThreadAt(Step(m1, WaitUp(t)), w);
  }

  /** A signal is a return: after cond_signal and lock_release by T, the waiter that has waited
      longest on C returns from cond_wait holding the lock, in three steps of its own. */
  lemma SignalReturns(m: Monitor, t: Thread, c: Cond)
    requires Inv(m) && t in m.pcs && m.pcs[t].Inside? && c in m.conds && m.conds[c] != []
    ensures Enabled(m, Dequeue(t, c)) && Enabled(Step(m, Dequeue(t, c)), WaitUp(t))
    ensures var w := m.conds[c][0];
            var m2 := Step(Step(m, Dequeue(t, c)), WaitUp(t));
            var m' := Alone(Alone(m2, t, 2), w, 3);
            && Inv(m') && m'.holder == Some(w) && w in m'.pcs && m'.pcs[w].Inside?
            && c in m.returned && c in m'.returned && m'.returned[c] == m.returned[c] + [w]
  {
    hide Inv, Step, Enabled, Alone;
    SignalPosts(m, t, c);
    var w := m.conds[c][0];
    var m2 := Step(Step(m, Dequeue(t, c)), WaitUp(t));
    ReleasesAlone(m2, t);
    AloneInv(m2, t, 2);
    WaiterReturns(Alone(m2, t, 2), w);
    AloneInv(Alone(m2, t, 2), w, 3);
  }

  // ---- who is served first ----

  /** The threads that a step wakes from their sleep on the lock. */
  ghost function Rose(m: Monitor, m': Monitor): set<Thread> {
    set u | u in m.pcs && u in m'.pcs && AsleepOnLock(m.pcs[u]) && !AsleepOnLock(m'.pcs[u])
  }

  /** The threads that a step sends to sleep on the lock. */
  ghost function Fell(m: Monitor, m': Monitor): set<Thread> {
    set u | u in m.pcs && u in m'.pcs && !AsleepOnLock(m.pcs[u]) && AsleepOnLock(m'.pcs[u])
  }

  /** A set of at most one thread as a sequence. */
  ghost function Listing(s: set<Thread>): seq<Thread> {
    if s == {} then [] else var u :| u in s; [u]
  }

  lemma ListingOne(u: Thread)
    ensures Listing({u}) == [u]
  {
    var s := {u};
    var v :| v in s && Listing(s) == [v];
  }

  /** The sleepers on the lock, in the order in which they fell asleep. */
  ghost function Sleepers(ms: seq<Monitor>): seq<Thread> {
    if |ms| < 2 then [] else Sleepers(ms[..|ms| - 1]) + Listing(Fell(ms[|ms| - 2], ms[|ms| - 1]))
  }

  /** The threads woken, in the order in which they were. */
  ghost function Risers(ms: seq<Monitor>): seq<Thread> {
    if |ms| < 2 then [] else Risers(ms[..|ms| - 1]) + Listing(Rose(ms[|ms| - 2], ms[|ms| - 1]))
  }

  /** Only a lock_acquire that finds no unit, and a lock_release that finds waiters, touch the sleepers. */
  lemma SleepKept(m: Monitor, op: Op)
    requires Inv(m) && Enabled(m, op)
    requires !(op.LockDown? && m.lock.value == 0) && !(op.LockUp? && m.lock.waiters != [])
    ensures var m' := Step(m, op);
            m'.lock.waiters == m.lock.waiters && forall u :: u in m.pcs && u in m'.pcs ==> AsleepOnLock(m'.pcs[u]) == AsleepOnLock(m.pcs[u])
  {
    hide LockInv, ThreadsOk, CondsOk;
    if op.WaitUp? {
      ThreadAt(m, op.t);
      ThreadAt(m, m.pcs[op.t].w);
    }
  }

  lemma DownSleeps(m: Monitor, t: Thread)
    requires Enabled(m, LockDown(t)) && m.lock.value == 0
    ensures var m' := Step(m, LockDown(t));
            m'.lock.waiters == m.lock.waiters + [t] && Fell(m, m') == {t} && Rose(m, m') == {}
  {
  }

  lemma UpWakes(m: Monitor, t: Thread)
    requires Enabled(m, LockUp(t)) && m.lock.waiters != []
    requires m.lock.waiters[0] in m.pcs && AsleepOnLock(m.pcs[m.lock.waiters[0]])
    ensures var m', xs := Step(m, LockUp(t)), m.lock.waiters;
            m'.lock.waiters == xs[1..] && Fell(m, m') == {} && Rose(m, m') == {xs[0]}
  {
  }

  /** One step adds the thread it sends to sleep at the end of the waiters, and wakes the first. */
  lemma LockQueue(m: Monitor, op: Op)
    requires Inv(m) && Enabled(m, op)
    ensures var m' := Step(m, op);
            m.lock.waiters + Listing(Fell(m, m')) == Listing(Rose(m, m')) + m'.lock.waiters
  {
    hide LockInv, ThreadsOk, CondsOk, Listing, Step, Enabled, Fell, Rose;
    FirstAsleep(m);
    var m' := Step(m, op);
    NoListing();
    if op.LockDown? && m.lock.value == 0 {
      DownSleeps(m, op.t);
      ListingOne(op.t);
    } else if op.LockUp? && m.lock.waiters != [] {
      UpWakes(m, op.t);
      ListingOne(m.lock.waiters[0]);
    } else {
      SleepKept(m, op);
      NoneMoved(m, m');
    }
  }

  lemma NoneMoved(m: Monitor, m': Monitor)
    requires forall u :: u in m.pcs && u in m'.pcs ==> AsleepOnLock(m'.pcs[u]) == AsleepOnLock(m.pcs[u])
    ensures Fell(m, m') == {} && Rose(m, m') == {}
  {
  }

  lemma NoListing()
    ensures Listing({}) == []
  {
  }

  /** Over every run, the lock is handed on in the order of arrival: those who waited at the
      start and those who fell asleep since, in order, are those who have been woken, in order,
      followed by those who wait now. */
  lemma {:induction false} LockFifo(ms: seq<Monitor>, ops: seq<Op>)
    requires IsRun(ms, ops) && Inv(ms[0])
    ensures ms[0].lock.waiters + Sleepers(ms) == Risers(ms) + ms[|ops|].lock.waiters
  {
    hide Inv, Step, Enabled, Fell, Rose, Listing;
    if ops != [] {
      var k := |ops| - 1;
      var ms', ops' := ms[..k + 1], ops[..k];
      assert ms'[0] == ms[0] && ms'[k] == ms[k];
      LockFifo(ms', ops');
      RunInv(ms, ops);
      LockQueue(ms[k], ops[k]);
      Semaphores.QueueChain(ms[0].lock.waiters, Sleepers(ms'), Risers(ms'), ms[k].lock.waiters,
                            Listing(Fell(ms[k], ms[k + 1])), Listing(Rose(ms[k], ms[k + 1])), ms[k + 1].lock.waiters);
    }
  }
}
