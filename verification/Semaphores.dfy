/** Semaphores, as steps of any number of threads.  Each step is one section that
    the kernel runs with interrupts off; threads interleave between sections. */
module Semaphores {
  import opened Basics

  type Thread = nat

  datatype Sema = Sema(value: nat, waiters: seq<Thread>)

  /** One turn of the loop in sema_down by T: take a unit, or join the waiters and block. */
  function Test(s: Sema, t: Thread): Sema {
    if s.value == 0 then s.(waiters := s.waiters + [t]) else s.(value := s.value - 1)
  }

  /** sema_up: wakes the first waiter, if any, and adds a unit. */
  function Post(s: Sema): Sema {
    Sema(s.value + 1, if s.waiters == [] then [] else s.waiters[1..])
  }

  /** The semaphore object; its methods are the interrupts-off sections. */
  class Semaphore {
    var value: nat
    var waiters: seq<Thread>

    ghost function State(): Sema
      reads this
    {
      Sema(value, waiters)
    }

    constructor (v: nat)
      ensures State() == Sema(v, [])
    {
      value, waiters := v, [];
    }

    /** One turn of sema_down: DONE means the unit was taken, otherwise T is blocked. */
    method Down(t: Thread) returns (done: bool)
      modifies this
      ensures State() == Test(old(State()), t) && done == (old(value) > 0)
    {
      if value == 0 {
        waiters := waiters + [t];
        done := false;
      } else {
        value := value - 1;
        done := true;
      }
    }

    method TryDown() returns (success: bool)
      modifies this
      ensures success == (old(value) > 0)
      ensures State() == if success then Sema(old(value) - 1, old(waiters)) else old(State())
    {
      if value > 0 {
        value := value - 1;
        success := true;
      } else {
        success := false;
      }
    }

    /** sema_up; WOKEN holds the thread that was unblocked, if any. */
    method Up() returns (woken: seq<Thread>)
      modifies this
      ensures State() == Post(old(State()))
      ensures woken + waiters == old(waiters) && (old(waiters) != [] ==> |woken| == 1)
    {
      woken := [];
      if waiters != [] {
        woken := [waiters[0]];
        waiters := waiters[1..];
      }
      value := value + 1;
    }
  }

  /** What a thread is doing: running outside the semaphore, blocked on it, or
      unblocked and about to test the value again. */
  datatype Phase = Outside | Blocked | Woken

  /** A semaphore, its threads, and how many ups and downs have been completed. */
  datatype System = System(sema: Sema, phase: map<Thread, Phase>, init: nat, ups: nat, downs: nat)

  datatype Op =
    | Down(t: Thread)
    | TryDown
    | Up

  ghost predicate Enabled(s: System, op: Op) {
    match op
    case Down(t) => t in s.phase && s.phase[t] != Blocked
    case TryDown => true
    case Up => true
  }

  /** TryDown and Up may come from a thread or from an interrupt handler. */
  ghost function Step(s: System, op: Op): System
    requires Enabled(s, op)
  {
    match op
    case Down(t) =>
      if s.sema.value == 0 then s.(sema := Test(s.sema, t), phase := s.phase[t := Blocked])
      else s.(sema := Test(s.sema, t), phase := s.phase[t := Outside], downs := s.downs + 1)
    case TryDown =>
      if s.sema.value == 0 then s else s.(sema := s.sema.(value := s.sema.value - 1), downs := s.downs + 1)
    case Up =>
      s.(sema := Post(s.sema), ups := s.ups + 1,
         phase := if s.sema.waiters == [] then s.phase else s.phase[s.sema.waiters[0] := Woken])
  }

  ghost function Elems(xs: seq<Thread>): set<Thread> {
    set x | x in xs
  }

  lemma Appended(xs: seq<Thread>, t: Thread)
    requires NoDup(xs) && t !in Elems(xs)
    ensures NoDup(xs + [t]) && Elems(xs + [t]) == Elems(xs) + {t}
  {
    assert forall i :: 0 <= i < |xs| ==> xs[i] in Elems(xs);
  }

  lemma Popped(xs: seq<Thread>)
    requires NoDup(xs) && xs != []
    ensures NoDup(xs[1..]) && Elems(xs[1..]) == Elems(xs) - {xs[0]} && xs[0] in Elems(xs)
  {
    assert xs == [xs[0]] + xs[1..];
  }

  lemma NoneListed(xs: seq<Thread>)
    ensures xs == [] <==> Elems(xs) == {}
  {
    if xs != [] {
      assert xs[0] in Elems(xs);
    }
  }

  ghost function Those(phase: map<Thread, Phase>, p: Phase): set<Thread> {
    set t | t in phase && phase[t] == p
  }

  ghost predicate Inv(s: System) {
    && s.sema.value == s.init + s.ups - s.downs
    && NoDup(s.sema.waiters)
    && Elems(s.sema.waiters) == Those(s.phase, Blocked)
    && (s.sema.waiters != [] ==> |Those(s.phase, Woken)| >= s.sema.value)
  }

  ghost predicate Initial(s: System) {
    && s.sema == Sema(s.init, []) && s.ups == s.downs == 0
    && forall t :: t in s.phase ==> s.phase[t] == Outside
  }

  lemma ThoseUpdate(phase: map<Thread, Phase>, t: Thread, p: Phase, q: Phase)
    ensures Those(phase[t := q], p) == if p == q then Those(phase, p) + {t} else Those(phase, p) - {t}
  {
  }

  lemma DownInv(s: System, t: Thread)
    requires Inv(s) && Enabled(s, Down(t))
    ensures Inv(Step(s, Down(t)))
  {
    hide NoDup, Elems, Those;
    var q := if s.sema.value == 0 then Blocked else Outside;
    ThoseUpdate(s.phase, t, Blocked, q);
    ThoseUpdate(s.phase, t, Woken, q);
    NotBlocked(s.phase, t);
    if s.sema.value == 0 {
      Appended(s.sema.waiters, t);
    } else {
      LessOne(Those(s.phase, Woken), t);
    }
  }

  lemma NotBlocked(phase: map<Thread, Phase>, t: Thread)
    ensures t in Those(phase, Blocked) <==> t in phase && phase[t] == Blocked
    ensures t in Those(phase, Woken) <==> t in phase && phase[t] == Woken
  {
  }

  lemma LessOne(s: set<Thread>, t: Thread)
    ensures |s - {t}| >= |s| - 1
    ensures t !in s ==> |s + {t}| == |s| + 1
  {
    if t in s {
      assert s == (s - {t}) + {t};
    } else {
      assert s == s - {t};
    }
  }

  lemma UpInv(s: System)
    requires Inv(s)
    ensures Inv(Step(s, Up))
  {
    hide NoDup, Elems, Those;
    var xs := s.sema.waiters;
    if xs != [] {
      Popped(xs);
      ThoseUpdate(s.phase, xs[0], Blocked, Woken);
      ThoseUpdate(s.phase, xs[0], Woken, Woken);
      NotBlocked(s.phase, xs[0]);
      LessOne(Those(s.phase, Woken), xs[0]);
    }
  }

  lemma StepInv(s: System, op: Op)
    requires Inv(s) && Enabled(s, op)
    ensures Inv(Step(s, op))
  {
    match op {
      case Down(t) => DownInv(s, t);
      case TryDown =>
      case Up => UpInv(s);
    }
  }

  ghost predicate IsRun(ss: seq<System>, ops: seq<Op>) {
    && |ss| == |ops| + 1
    && forall i :: 0 <= i < |ops| ==> Enabled(ss[i], ops[i]) && ss[i + 1] == Step(ss[i], ops[i])
  }

  /** In every interleaving: the value is what it began with, plus the ups, less the
      completed downs; and when threads are waiting, at least as many threads as there
      are units have been woken and are about to take them. */
  lemma {:induction false} NoLostWakeup(ss: seq<System>, ops: seq<Op>)
    requires IsRun(ss, ops) && Initial(ss[0])
    ensures forall i :: 0 <= i < |ss| ==> Inv(ss[i])
  {
    if ops == [] {
      assert Those(ss[0].phase, Blocked) == {};
    } else {
      var k := |ops| - 1;
      NoLostWakeup(ss[..k + 1], ops[..k]);
      assert ss[..k + 1][k] == ss[k];
      StepInv(ss[k], ops[k]);
    }
  }

  // ---- who is served first, and that a woken thread goes on ----

  /** The threads that a step moves from phase P to phase Q. */
  ghost function Moved(s: System, s': System, p: Phase, q: Phase): set<Thread> {
    set t | t in s.phase && t in s'.phase && s.phase[t] == p && s'.phase[t] == q
  }

  /** The threads that a step blocks. */
  ghost function Fell(s: System, s': System): set<Thread> {
    Moved(s, s', Outside, Blocked) + Moved(s, s', Woken, Blocked)
  }

  /** A set of at most one thread as a sequence. */
  ghost function Listing(s: set<Thread>): seq<Thread> {
    if s == {} then [] else var t :| t in s; [t]
  }

  lemma ListingOne(t: Thread)
    ensures Listing({t}) == [t] && Listing({}) == []
  {
    var s := {t};
    var u :| u in s && Listing(s) == [u];
  }

  /** The threads blocked, in the order in which they were. */
  ghost function Sleepers(ss: seq<System>): seq<Thread> {
    if |ss| < 2 then [] else Sleepers(ss[..|ss| - 1]) + Listing(Fell(ss[|ss| - 2], ss[|ss| - 1]))
  }

  /** The threads woken, in the order in which they were. */
  ghost function Risers(ss: seq<System>): seq<Thread> {
    if |ss| < 2 then [] else Risers(ss[..|ss| - 1]) + Listing(Moved(ss[|ss| - 2], ss[|ss| - 1], Blocked, Woken))
  }

  lemma QueueStep(s: System, op: Op)
    requires Inv(s) && Enabled(s, op)
    ensures var s' := Step(s, op);
            s.sema.waiters + Listing(Fell(s, s')) == Listing(Moved(s, s', Blocked, Woken)) + s'.sema.waiters
  {
    var s', xs := Step(s, op), s.sema.waiters;
    if xs != [] {
      assert xs[0] in Elems(xs) && xs[0] in Those(s.phase, Blocked);
    }
    hide Listing, Inv;
    ListingOne(0);
    if op.Down? && s.sema.value == 0 {
      assert Fell(s, s') == {op.t} && Moved(s, s', Blocked, Woken) == {};
      ListingOne(op.t);
    } else if op.Up? && xs != [] {
      assert Fell(s, s') == {} && Moved(s, s', Blocked, Woken) == {xs[0]};
      ListingOne(xs[0]);
    } else {
      assert Fell(s, s') == {} && Moved(s, s', Blocked, Woken) == {};
    }
  }

  /** A queue after some steps and one more. */
  lemma QueueChain(start: seq<Thread>, come: seq<Thread>, gone: seq<Thread>, xs: seq<Thread>,
                   last: seq<Thread>, first: seq<Thread>, xs': seq<Thread>)
    requires start + come == gone + xs && xs + last == first + xs'
    ensures start + (come + last) == (gone + first) + xs'
  {
    assert start + (come + last) == (start + come) + last == gone + (xs + last);
  }

  lemma {:induction false} QueueRun(ss: seq<System>, ops: seq<Op>)
    requires IsRun(ss, ops) && forall i :: 0 <= i < |ss| ==> Inv(ss[i])
    ensures ss[0].sema.waiters + Sleepers(ss) == Risers(ss) + ss[|ops|].sema.waiters
  {
    hide Inv, Step, Enabled, Fell, Moved, Listing;
    if ops != [] {
      var k := |ops| - 1;
      var ss' := ss[..k + 1];
      assert ss'[0] == ss[0] && ss'[k] == ss[k];
      QueueRun(ss', ops[..k]);
      QueueStep(ss[k], ops[k]);
      QueueChain(ss[0].sema.waiters, Sleepers(ss'), Risers(ss'), ss[k].sema.waiters,
                 Listing(Fell(ss[k], ss[k + 1])), Listing(Moved(ss[k], ss[k + 1], Blocked, Woken)), ss[k + 1].sema.waiters);
    }
  }

  /** In every interleaving threads are woken in the order in which they blocked. */
  lemma SemaFifo(ss: seq<System>, ops: seq<Op>)
    requires IsRun(ss, ops) && Initial(ss[0])
    ensures Sleepers(ss) == Risers(ss) + ss[|ops|].sema.waiters
  {
    NoLostWakeup(ss, ops);
    hide Inv, Sleepers, Risers, IsRun;
    QueueRun(ss, ops);
  }

  /** sema_down by a thread that is not blocked returns in one turn exactly when there is a unit,
      and sema_try_down takes one exactly then; either way the unit is gone. */
  lemma TakesUnit(s: System, op: Op)
    requires Inv(s) && Enabled(s, op) && !op.Up?
    ensures var s' := Step(s, op);
            && s'.downs == s.downs + (if s.sema.value > 0 then 1 else 0)
            && s'.sema.value == (if s.sema.value > 0 then s.sema.value - 1 else 0)
            && (op.Down? ==> op.t in s'.phase && s'.phase[op.t] == if s.sema.value > 0 then Outside else Blocked)
  {
  }

  /** After sema_up the thread that has been blocked longest, if it runs next, completes its
      sema_down. */
  lemma UpReleases(s: System)
    requires Inv(s) && s.sema.waiters != []
    ensures var t, s' := s.sema.waiters[0], Step(s, Up);
            && Enabled(s', Down(t)) && t in s'.phase && s'.phase[t] == Woken
            && Step(s', Down(t)).phase[t] == Outside && Step(s', Down(t)).downs == s.downs + 1
  {
    var t := s.sema.waiters[0];
    assert t in Elems(s.sema.waiters) && t in Those(s.phase, Blocked);
  }
}
