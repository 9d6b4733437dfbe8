/**
 * The scheduler (scheduler.c): which queue each process is in, over every run of the operations that move processes
 * between the run queue and the blocked queue, and the round robin over the run queue.
 */
module Scheduler {
  import opened Common
  import opened Queues

  predicate Active(st: State) {
    st == Running || st == Resuming
  }

  datatype Sched = Sched(run: seq<Process>, blocked: seq<Process>, states: map<Process, State>, current: Process?,
      idle: Process)

  /** A process is in the queue its state says, and in no other. */
  ghost predicate Queued(s: Sched, p: Process)
    requires p in s.states
  {
    (p in s.run <==> Active(s.states[p])) && (p in s.blocked <==> s.states[p] == Blocked)
  }

  /** Every process but the idle one is queued as its state says, exactly once. */
  ghost predicate Good(s: Sched) {
    && Distinct(s.run) && Distinct(s.blocked) && s.idle !in s.run && s.idle !in s.blocked
    && (forall p :: p in s.run ==> p in s.states) && (forall p :: p in s.blocked ==> p in s.states)
    && (forall p :: p in s.states && p != s.idle ==> Queued(s, p))
    && (s.current != null ==> s.current in s.states)
  }

  // ----- the operations -----

  /** insert_proc, of a new process. */
  function Add(s: Sched, p: Process): Sched {
    s.(run := [p] + s.run, states := s.states[p := Running])
  }

  function Exit(s: Sched, p: Process): Sched
    requires p in s.states
  {
    if s.states[p] == Exited then s
    else if s.states[p] == Blocked then s.(blocked := Removed(s.blocked, p), states := s.states[p := Exited])
    else s.(run := Removed(s.run, p), states := s.states[p := Exited])
  }

  function Stop(s: Sched, p: Process): Sched
    requires p in s.states
  {
    if s.states[p] == Exited || s.states[p] == Stopped then s
    else if s.states[p] == Blocked then s.(blocked := Removed(s.blocked, p), states := s.states[p := Stopped])
    else s.(run := Removed(s.run, p), states := s.states[p := Stopped])
  }

  function Suspend(s: Sched, p: Process): Sched
    requires p in s.states
  {
    if s.states[p] != Running then s
    else s.(run := Removed(s.run, p), blocked := [p] + s.blocked, states := s.states[p := Blocked])
  }

  function Resume(s: Sched, p: Process): Sched
    requires p in s.states
  {
    if Active(s.states[p]) || s.states[p] == Exited then s
    else if s.states[p] == Blocked then
            s.(blocked := Removed(s.blocked, p), run := [p] + s.run, states := s.states[p := Resuming])
    else s.(run := [p] + s.run, states := s.states[p := Resuming])
  }

  function Cancel(s: Sched, p: Process): Sched
    requires p in s.states
  {
    var s1 := if s.states[p] == Blocked then Resume(s, p) else s;
    if p in s1.states && s1.states[p] == Resuming then s1.(states := s1.states[p := Running]) else s1
  }

  /** reschedule_proc_to_now; None if the process is then in no queue. */
  function MoveToNow(s: Sched, p: Process): Option<Sched>
    requires p in s.states
  {
    if p == s.current || !Active(s.states[p]) then Some(s)
    else if s.current == null || s.current !in s.states then None
    else if !Active(s.states[s.current]) then Some(s)
    else
      match Placed(Removed(s.run, p), p, s.current)
      case None => None
      case Some(run) => Some(s.(run := run))
  }

  /** resume_proc_without_restart. */
  function ResumeNow(s: Sched, p: Process): Option<Sched>
    requires p in s.states
  {
    var s1 := Resume(s, p);
    MoveToNow(s1.(states := s1.states[p := Running]), p)
  }

  /** The process schedule() turns to. */
  function Next(s: Sched): Process {
    var k := if s.current == null then |s.run| else IndexOf(s.run, s.current);
    if k + 1 < |s.run| && s.current in s.states && Active(s.states[s.current]) then s.run[k + 1]
    else if s.run != [] then s.run[0] else s.idle
  }

  /** schedule: the process selected is running from then on. */
  function Schedule(s: Sched): Sched {
    var p := Next(s);
    s.(current := p, states := if p in s.states && s.states[p] == Resuming then s.states[p := Running] else s.states)
  }

  // ----- when they keep every process in its queue -----

  lemma AddGood(s: Sched, p: Process)
    requires Good(s) && p !in s.states && p != s.idle
    ensures Good(Add(s, p))
  {
    var s' := Add(s, p);
    assert forall q :: q in s'.run <==> q == p || q in s.run;
    forall q | q in s'.states && q != s'.idle
      ensures Queued(s', q)
    {
      assert q != p ==> Queued(s, q);
    }
  }

  /** A process leaves the queue it is in. */
  lemma LeaveGood(s: Sched, p: Process, s': Sched, st: State)
    requires Good(s) && p in s.states && p != s.idle && (st == Stopped || st == Exited) && s.states[p] != Exited
    requires s' == if s.states[p] == Blocked then s.(blocked := Removed(s.blocked, p), states := s.states[p := st])
                   else s.(run := if Active(s.states[p]) then Removed(s.run, p) else s.run, states := s.states[p := st])
    ensures Good(s')
  {
    assert Queued(s, p);
    forall q | q in s'.states && q != s'.idle
      ensures Queued(s', q)
    {
      assert Queued(s, q);
      HasWithout(s, p, q);
    }
    HasWithout(s, p, s.idle);
    forall q | q in s'.run || q in s'.blocked
      ensures q in s'.states
    {
      HasWithout(s, p, q);
    }
  }

  /** Taking a process out of its queue leaves the others. */
  lemma HasWithout(s: Sched, p: Process, q: Process)
    requires Good(s) && p in s.states && p != s.idle
    ensures Active(s.states[p]) ==> Distinct(Removed(s.run, p)) && (q in Removed(s.run, p) <==> q in s.run && q != p)
    ensures s.states[p] == Blocked ==>
            Distinct(Removed(s.blocked, p)) && (q in Removed(s.blocked, p) <==> q in s.blocked && q != p)
  {
    assert Queued(s, p);
    if Active(s.states[p]) {
      RemovedHas(s.run, p, q);
    }
    if s.states[p] == Blocked {
      RemovedHas(s.blocked, p, q);
    }
  }

  /** exit_proc keeps every process in its queue if and only if it is not applied to a stopped process while
      others can run: that empties the run queue. */
  lemma ExitGoodIff(s: Sched, p: Process)
    requires Good(s) && p in s.states && p != s.idle
    ensures Good(Exit(s, p)) <==> !(s.states[p] == Stopped && s.run != [])
  {
    assert Queued(s, p);
    if s.states[p] == Stopped {
      if s.run != [] {
        var q := s.run[0];
        assert q in s.run && Queued(s, q);
        assert !Queued(Exit(s, p), q);
      } else {
        LeaveGood(s, p, Exit(s, p), Exited);
      }
    } else if s.states[p] != Exited {
      LeaveGood(s, p, Exit(s, p), Exited);
    }
  }

  lemma StopGood(s: Sched, p: Process)
    requires Good(s) && p in s.states && p != s.idle
    ensures Good(Stop(s, p))
  {
    if s.states[p] != Exited && s.states[p] != Stopped {
      LeaveGood(s, p, Stop(s, p), Stopped);
    }
  }

  lemma SuspendGood(s: Sched, p: Process)
    requires Good(s) && p in s.states && p != s.idle
    ensures Good(Suspend(s, p))
  {
    if s.states[p] == Running {
      var s' := Suspend(s, p);
      assert Queued(s, p);
      forall q
        ensures (q in s'.run <==> q in s.run && q != p) && (q in s'.blocked <==> q == p || q in s.blocked)
        ensures Distinct(s'.run)
      {
        HasWithout(s, p, q);
      }
      forall q | q in s'.states && q != s'.idle
        ensures Queued(s', q)
      {
        assert Queued(s, q);
      }
    }
  }

  lemma ResumeGood(s: Sched, p: Process)
    requires Good(s) && p in s.states && p != s.idle
    ensures Good(Resume(s, p)) && Resume(s, p).states.Keys == s.states.Keys
  {
    if !Active(s.states[p]) && s.states[p] != Exited {
      var s' := Resume(s, p);
      assert Queued(s, p);
      forall q
        ensures (q in s'.run <==> q == p || q in s.run) && (q in s'.blocked <==> q in s.blocked && q != p)
        ensures Distinct(s'.blocked)
      {
        HasWithout(s, p, q);
      }
      forall q | q in s'.states && q != s'.idle
        ensures Queued(s', q)
      {
        assert Queued(s, q);
      }
    }
  }

  /** A change between the two states of a queued process changes no queue. */
  lemma RestateGood(s: Sched, p: Process, s': Sched)
    requires Good(s) && p in s.states && Active(s.states[p]) && s' == s.(states := s.states[p := Running])
    ensures Good(s')
  {
    forall q | q in s'.states && q != s'.idle
      ensures Queued(s', q)
    {
      assert Queued(s, q);
    }
  }

  lemma CancelGood(s: Sched, p: Process)
    requires Good(s) && p in s.states && p != s.idle
    ensures Good(Cancel(s, p))
  {
    ResumeGood(s, p);
    var s1 := if s.states[p] == Blocked then Resume(s, p) else s;
    if s1.states[p] == Resuming {
      RestateGood(s1, p, Cancel(s, p));
    }
  }

  /** reschedule_proc_to_now can put a process after the current one. */
  predicate CanMove(s: Sched, p: Process)
    requires p in s.states
  {
    p == s.current || !Active(s.states[p])
      || (s.current != null && s.current in s.states && (!Active(s.states[s.current]) || s.current in s.run))
  }

  /** reschedule_proc_to_now keeps the queues in order if and only if it has nothing to do or the current
      process is queued. */
  lemma MoveGoodIff(s: Sched, p: Process)
    requires Good(s) && p in s.states && p != s.idle
    ensures (MoveToNow(s, p).Some? && Good(MoveToNow(s, p).value)) <==> CanMove(s, p)
  {
    if p != s.current && Active(s.states[p]) && s.current != null && s.current in s.states
       && Active(s.states[s.current]) {
      var c: Process := s.current;
      var rest := Removed(s.run, p);
      var k := IndexOf(rest, c);
      HasWithout(s, p, c);
      if k < |rest| {
        MovedGood(s, p, rest, k, MoveToNow(s, p).value);
      }
    }
  }

  lemma MovedGood(s: Sched, p: Process, rest: seq<Process>, k: nat, s': Sched)
    requires Good(s) && p in s.states && p != s.idle && Active(s.states[p]) && rest == Removed(s.run, p) && k < |rest|
    requires s' == s.(run := rest[..k + 1] + [p] + rest[k + 1..])
    ensures Good(s')
  {
    HasWithout(s, p, p);
    forall q
      ensures q in s'.run <==> q in s.run
    {
      HasWithout(s, p, q);
      assert Queued(s, p);
      assert q in rest <==> q in rest[..k + 1] || q in rest[k + 1..];
    }
    forall q | q in s'.states && q != s'.idle
      ensures Queued(s', q)
    {
      assert Queued(s, q);
    }
  }

  /** resume_proc_without_restart keeps them in order if and only if the process has not exited and can be put
      after the current one. */
  lemma ResumeNowGoodIff(s: Sched, p: Process)
    requires Good(s) && p in s.states && p != s.idle
    ensures (ResumeNow(s, p).Some? && Good(ResumeNow(s, p).value))
       <==> s.states[p] != Exited && CanMove(Resume(s, p).(states := Resume(s, p).states[p := Running]), p)
  {
    ResumeGood(s, p);
    var s1 := Resume(s, p);
    var s2 := s1.(states := s1.states[p := Running]);
    assert Queued(s, p);
    if s.states[p] == Exited {
      LostGood(s2, p);
    } else {
      RestateGood(s1, p, s2);
      MoveGoodIff(s2, p);
    }
  }

  /** A process made running without being queued stays lost. */
  lemma LostGood(s: Sched, p: Process)
    requires p in s.states && p != s.idle && s.states[p] == Running && p !in s.run
    ensures MoveToNow(s, p).Some? ==> !Good(MoveToNow(s, p).value)
  {
    var r := MoveToNow(s, p);
    if r.Some? {
      assert r.value == s;
      assert !Queued(s, p);
    }
  }

  // ----- runs -----

  datatype Op = Insert(p: Process) | Leave(p: Process) | Halt(p: Process) | Sleep(p: Process) | Wake(p: Process)
      | WakeNow(p: Process) | Interrupt(p: Process) | Promote(p: Process) | Switch

  predicate Known(s: Sched, p: Process) {
    p in s.states && p != s.idle
  }

  /** The processes are not the idle one, and each operation is used as its property needs. */
  predicate Legal(s: Sched, op: Op) {
    match op
    case Switch => true
    case Insert(p) => p !in s.states && p != s.idle
    case Leave(p) => Known(s, p) && !(s.states[p] == Stopped && s.run != [])
    case WakeNow(p) =>
      Known(s, p) && s.states[p] != Exited && CanMove(Resume(s, p).(states := Resume(s, p).states[p := Running]), p)
    case Promote(p) => Known(s, p) && CanMove(s, p)
    case Halt(p) => Known(s, p)
    case Sleep(p) => Known(s, p)
    case Wake(p) => Known(s, p)
    case Interrupt(p) => Known(s, p)
  }

  function Step(s: Sched, op: Op): Option<Sched>
    requires Legal(s, op)
  {
    match op
    case Switch => Some(Schedule(s))
    case Insert(p) => Some(Add(s, p))
    case Leave(p) => Some(Exit(s, p))
    case Halt(p) => Some(Stop(s, p))
    case Sleep(p) => Some(Suspend(s, p))
    case Wake(p) => Some(Resume(s, p))
    case WakeNow(p) => ResumeNow(s, p)
    case Interrupt(p) => Some(Cancel(s, p))
    case Promote(p) => MoveToNow(s, p)
  }

  lemma ScheduleGood(s: Sched)
    requires Good(s) && s.idle in s.states
    ensures Good(Schedule(s)) && Schedule(s).run == s.run
  {
    var p := Next(s);
    assert s.run != [] ==> p in s.run;
    if p in s.states && s.states[p] == Resuming && p != s.idle {
      RestateGood(s.(current := p), p, Schedule(s));
    } else {
      forall q | q in s.states && q != s.idle
        ensures Queued(Schedule(s), q)
      {
        assert Queued(s, q);
      }
    }
  }

  /** A process that was resumed and is selected can block again. */
  lemma BlocksAgain(s: Sched)
    requires Good(s) && s.idle in s.states && s.run != []
    ensures var s1 := Schedule(s);
            && s1.current != null && s1.current in s1.states && s1.states[s1.current] == Running
            && Suspend(s1, s1.current).blocked == [s1.current] + s.blocked
  {
    var p := Next(s);
    assert p in s.run && Queued(s, p);
  }

  lemma StepKeepsIdle(s: Sched, op: Op)
    requires s.idle in s.states && Legal(s, op) && Step(s, op).Some?
    ensures Step(s, op).value.idle == s.idle && s.idle in Step(s, op).value.states
  {
    hide Removed, Placed, Next;
  }

  lemma StepGood(s: Sched, op: Op)
    requires Good(s) && s.idle in s.states && Legal(s, op)
    ensures Step(s, op).Some? && Good(Step(s, op).value)
  {
    hide Good, Add, Exit, Stop, Suspend, Resume, Cancel, Schedule, CanMove, ResumeNow, MoveToNow;
    match op
    case Switch => ScheduleGood(s);
    case Insert(p) => AddGood(s, p);
    case Leave(p) => ExitGoodIff(s, p);
    case Halt(p) => StopGood(s, p);
    case Sleep(p) => SuspendGood(s, p);
    case Wake(p) => ResumeGood(s, p);
    case WakeNow(p) => ResumeNowGoodIff(s, p);
    case Interrupt(p) => CancelGood(s, p);
    case Promote(p) => MoveGoodIff(s, p);
  }

  ghost predicate LegalRun(s: Sched, ops: seq<Op>)
    decreases |ops|
  {
    ops == [] || (Legal(s, ops[0]) && Step(s, ops[0]).Some? && LegalRun(Step(s, ops[0]).value, ops[1..]))
  }

  ghost function After(s: Sched, ops: seq<Op>): Sched
    requires LegalRun(s, ops)
    decreases |ops|
  {
    if ops == [] then s else After(Step(s, ops[0]).value, ops[1..])
  }

  /** Over every run, each process but the idle one is in the queue its state says, exactly once. */
  lemma {:induction false} RunGood(s: Sched, ops: seq<Op>)
    requires Good(s) && s.idle in s.states && LegalRun(s, ops)
    ensures Good(After(s, ops))
    ensures forall p :: p in After(s, ops).states && p != After(s, ops).idle ==> Queued(After(s, ops), p)
    decreases |ops|
  {
    if ops != [] {
      StepGood(s, ops[0]);
      StepKeepsIdle(s, ops[0]);
      RunGood(Step(s, ops[0]).value, ops[1..]);
    }
  }

  // ----- what becomes of a process, and of the others -----

  /** The life of a process: what an operation makes of its state. */
  function Becomes(op: Op, st: State): State {
    match op
    case Insert(_) => Running
    case Leave(_) => Exited
    case Halt(_) => if st == Exited then Exited else Stopped
    case Sleep(_) => if st == Running then Blocked else st
    case Wake(_) => if st == Blocked || st == Stopped then Resuming else st
    case WakeNow(_) => Running
    case Interrupt(_) => if st == Blocked || st == Resuming then Running else st
    case Promote(_) => st
    case Switch => if st == Resuming then Running else st
  }

  /** Process `p` goes over to state `st`, and the others keep their states and their order in both queues. */
  ghost predicate Turned(s: Sched, s': Sched, p: Process, st: State) {
    && s'.states == s.states[p := st] && s'.current == s.current && s'.idle == s.idle
    && (p in s'.run <==> Active(st)) && (p in s'.blocked <==> st == Blocked)
    && Others(s'.run, p) == Others(s.run, p) && Others(s'.blocked, p) == Others(s.blocked, p)
  }

  /** A process enters a queue in front, and keeps its place in one it stays in. */
  predicate InFront(was: seq<Process>, now: seq<Process>, p: Process) {
    if p in was && p in now then now == was else p in now ==> now == [p] + was
  }

  /** The queues of a process that leaves the one it is in, if any. */
  lemma OthersLeft(s: Sched, p: Process)
    requires Good(s) && p in s.states && p != s.idle
    ensures Active(s.states[p]) ==>
            Removed(s.run, p) == Others(s.run, p) && Others(Removed(s.run, p), p) == Others(s.run, p)
    ensures s.states[p] == Blocked ==>
            Removed(s.blocked, p) == Others(s.blocked, p) && Others(Removed(s.blocked, p), p) == Others(s.blocked, p)
  {
    assert Queued(s, p);
    HasWithout(s, p, p);
    if Active(s.states[p]) {
      RemovedIsOthers(s.run, p);
      OthersAll(Removed(s.run, p), p);
    }
    if s.states[p] == Blocked {
      RemovedIsOthers(s.blocked, p);
      OthersAll(Removed(s.blocked, p), p);
    }
  }

  lemma AddTurns(s: Sched, p: Process)
    requires Good(s) && p !in s.states && p != s.idle
    ensures Turned(s, Add(s, p), p, Running) && InFront(s.run, Add(s, p).run, p)
  {
    OthersInFront(s.run, p);
  }

  /** The end of a process takes it out of its queue; that of a stopped one empties the run queue. */
  lemma ExitTurns(s: Sched, p: Process)
    requires Good(s) && p in s.states && p != s.idle
    ensures !(s.states[p] == Stopped && s.run != []) ==> Turned(s, Exit(s, p), p, Exited)
    ensures s.states[p] == Stopped ==> Exit(s, p) == s.(run := [], states := s.states[p := Exited])
  {
    assert Queued(s, p);
    OthersLeft(s, p);
    HasWithout(s, p, p);
    assert s.states[p] == Exited ==> s.states == s.states[p := Exited];
  }

  lemma StopTurns(s: Sched, p: Process)
    requires Good(s) && p in s.states && p != s.idle
    ensures Turned(s, Stop(s, p), p, Becomes(Halt(p), s.states[p]))
  {
    assert Queued(s, p);
    OthersLeft(s, p);
    HasWithout(s, p, p);
    assert s.states == s.states[p := s.states[p]];
  }

  lemma SuspendTurns(s: Sched, p: Process)
    requires Good(s) && p in s.states && p != s.idle
    ensures Turned(s, Suspend(s, p), p, Becomes(Sleep(p), s.states[p]))
    ensures InFront(s.run, Suspend(s, p).run, p) && InFront(s.blocked, Suspend(s, p).blocked, p)
  {
    assert Queued(s, p);
    OthersLeft(s, p);
    HasWithout(s, p, p);
    OthersInFront(s.blocked, p);
    assert s.states == s.states[p := s.states[p]];
  }

  lemma ResumeTurns(s: Sched, p: Process)
    requires Good(s) && p in s.states && p != s.idle
    ensures Turned(s, Resume(s, p), p, Becomes(Wake(p), s.states[p]))
    ensures InFront(s.run, Resume(s, p).run, p)
  {
    assert Queued(s, p);
    OthersLeft(s, p);
    HasWithout(s, p, p);
    OthersInFront(s.run, p);
    assert s.states == s.states[p := s.states[p]];
  }

  lemma CancelTurns(s: Sched, p: Process)
    requires Good(s) && p in s.states && p != s.idle
    ensures Turned(s, Cancel(s, p), p, Becomes(Interrupt(p), s.states[p]))
    ensures InFront(s.run, Cancel(s, p).run, p)
  {
    assert Queued(s, p);
    ResumeTurns(s, p);
    assert s.states == s.states[p := s.states[p]];
  }

  /** A process moved to now comes next. */
  lemma MoveTurns(s: Sched, p: Process)
    requires Good(s) && p in s.states && p != s.idle && CanMove(s, p)
    ensures Turned(s, MoveToNow(s, p).value, p, s.states[p])
    ensures p != s.current && Active(s.states[p]) && Active(s.states[s.current]) ==> Next(MoveToNow(s, p).value) == p
  {
    assert Queued(s, p);
    assert s.states == s.states[p := s.states[p]];
    if p != s.current && Active(s.states[p]) && Active(s.states[s.current]) {
      MovedIsNext(s, p, s.current);
    }
  }

  lemma MovedIsNext(s: Sched, p: Process, c: Process)
    requires Good(s) && p in s.states && p != s.idle && Active(s.states[p])
    requires s.current == c && c != p && c in s.states && Active(s.states[c]) && c in s.run
    ensures MoveToNow(s, p).Some?
    ensures var s' := MoveToNow(s, p).value;
            s' == s.(run := s'.run) && p in s'.run && Others(s'.run, p) == Others(s.run, p) && Next(s') == p
  {
    var rest := Removed(s.run, p);
    HasWithout(s, p, p);
    HasWithout(s, p, c);
    OthersLeft(s, p);
    PlacedBehind(rest, p, c);
  }

  lemma PlacedBehind(rest: seq<Process>, p: Process, c: Process)
    requires c in rest && p !in rest && c != p
    ensures Placed(rest, p, c).Some?
    ensures var run := Placed(rest, p, c).value;
            var k := IndexOf(run, c);
            p in run && Others(run, p) == rest && k + 1 < |run| && run[k + 1] == p
  {
    var k := IndexOf(rest, c);
    var a, b := rest[..k + 1], rest[k + 1..];
    var run := a + [p] + b;
    assert Placed(rest, p, c) == Some(run) && run[k] == c && run[k + 1] == p && k + 1 < |run|;
    assert forall j :: 0 <= j < k ==> run[j] == rest[j] != c;
    OthersAmong(a, b, p);
    assert a + b == rest;
    hide Others, Placed;
    IndexFirst(run, c, k);
  }

  lemma IndexFirst(nodes: seq<Process>, x: Process, k: nat)
    requires k < |nodes| && nodes[k] == x && forall j :: 0 <= j < k ==> nodes[j] != x
    ensures IndexOf(nodes, x) == k
  {
  }

  /** Resuming without a restart makes the process the next one, running. */
  lemma ResumeNowTurns(s: Sched, p: Process)
    requires Good(s) && p in s.states && p != s.idle && s.states[p] != Exited
    requires CanMove(Resume(s, p).(states := Resume(s, p).states[p := Running]), p)
    ensures Turned(s, ResumeNow(s, p).value, p, Running)
    ensures p != s.current && Active(s.states[s.current]) ==> Next(ResumeNow(s, p).value) == p
  {
    ResumeGood(s, p);
    ResumeTurns(s, p);
    var s1 := Resume(s, p);
    assert Queued(s1, p);
    var s2 := s1.(states := s1.states[p := Running]);
    RestateGood(s1, p, s2);
    MoveTurns(s2, p);
    assert s2.states == s.states[p := Running];
  }

  /** Every step but a switch changes the state of its process as its life has it, and of the others nothing. */
  lemma StepTurns(s: Sched, op: Op)
    requires Good(s) && s.idle in s.states && Legal(s, op) && op != Switch
    ensures Step(s, op).Some?
    ensures Turned(s, Step(s, op).value, op.p, if op.Insert? then Running else Becomes(op, s.states[op.p]))
  {
    StepGood(s, op);
    hide Good, Add, Exit, Stop, Suspend, Resume, Cancel, CanMove, ResumeNow, MoveToNow, Turned;
    match op
    case Insert(p) => AddTurns(s, p);
    case Leave(p) => ExitTurns(s, p);
    case Halt(p) => StopTurns(s, p);
    case Sleep(p) => SuspendTurns(s, p);
    case Wake(p) => ResumeTurns(s, p);
    case WakeNow(p) => ResumeNowTurns(s, p);
    case Interrupt(p) => CancelTurns(s, p);
    case Promote(p) => MoveTurns(s, p);
  }

  /** A switch makes the process it turns to run, and changes nothing else; from a process that is not queued it turns
      to the first one. */
  lemma ScheduleTurns(s: Sched)
    requires Good(s) && s.idle in s.states
    ensures s.run != [] && (s.current == null || s.current !in s.run) ==> Schedule(s).current == s.run[0]
    ensures var s' := Schedule(s);
            && s'.current != null && s'.current in s.states && s' == s.(current := s'.current, states := s'.states)
            && s'.states == s.states[s'.current := Becomes(Switch, s.states[s'.current])]
  {
    var p := Next(s);
    assert s.run != [] ==> p in s.run;
    assert s.states == s.states[p := s.states[p]];
  }

  /** A process that has been stopped or put to sleep, and is then resumed, is in front of the others. */
  lemma BackInFront(s: Sched, t: Sched, p: Process, st: State)
    requires Good(t) && p in t.states && p != t.idle && Turned(s, t, p, st) && (st == Stopped || st == Blocked)
    ensures Resume(t, p).states == s.states[p := Resuming]
    ensures Resume(t, p).run == [p] + Others(s.run, p) && Resume(t, p).blocked == Others(s.blocked, p)
  {
    OthersLeft(t, p);
    OthersAll(t.run, p);
    if st == Stopped {
      OthersAll(t.blocked, p);
    }
    hide Good, Others, Removed;
  }

  lemma StopThenResume(s: Sched, p: Process)
    requires Good(s) && p in s.states && p != s.idle && s.states[p] != Exited
    ensures var s' := Resume(Stop(s, p), p);
            s'.states == s.states[p := Resuming] && s'.run == [p] + Others(s.run, p)
            && s'.blocked == Others(s.blocked, p)
  {
    StopGood(s, p);
    StopTurns(s, p);
    var t := Stop(s, p);
    assert p in t.states && p != t.idle && Becomes(Halt(p), s.states[p]) == Stopped;
    hide *;
    BackInFront(s, t, p, Stopped);
  }

  lemma SuspendThenResume(s: Sched, p: Process)
    requires Good(s) && p in s.states && p != s.idle && s.states[p] == Running
    ensures var s' := Resume(Suspend(s, p), p);
            s'.states == s.states[p := Resuming] && s'.run == [p] + Others(s.run, p)
            && s'.blocked == Others(s.blocked, p)
  {
    SuspendGood(s, p);
    SuspendTurns(s, p);
    var t := Suspend(s, p);
    assert p in t.states && p != t.idle && Becomes(Sleep(p), s.states[p]) == Blocked;
    hide *;
    BackInFront(s, t, p, Blocked);
  }

  // ----- round robin -----

  /** The state after `n` calls of schedule() with nothing else in between. */
  function Scheduled(s: Sched, n: nat): Sched {
    if n == 0 then s else Schedule(Scheduled(s, n - 1))
  }

  lemma IndexUnique(nodes: seq<Process>, i: nat)
    requires Distinct(nodes) && i < |nodes|
    ensures IndexOf(nodes, nodes[i]) == i
  {
  }

  /** The place after `i` in a ring of `len`. */
  function Succ(i: nat, len: nat): nat {
    if i + 1 < len then i + 1 else 0
  }

  function Around(i: nat, n: nat, len: nat): nat {
    if n == 0 then i else Succ(Around(i, n - 1, len), len)
  }

  lemma {:induction false} AroundIs(i: nat, n: nat, len: nat)
    requires i < len && n <= len
    ensures Around(i, n, len) == if i + n < len then i + n else i + n - len
  {
    if n > 0 {
      AroundIs(i, n - 1, len);
    }
  }

  lemma NextIs(s: Sched, i: nat)
    requires Good(s) && i < |s.run| && s.current == s.run[i]
    ensures Succ(i, |s.run|) < |s.run| && Next(s) == s.run[Succ(i, |s.run|)]
  {
    assert s.run[i] in s.run && Queued(s, s.run[i]);
    IndexUnique(s.run, i);
  }

  /** Scheduling goes around the run queue one process at a time. */
  lemma {:induction false} RoundRobin(s: Sched, i: nat, n: nat)
    requires Good(s) && s.idle in s.states && i < |s.run| && s.current == s.run[i]
    ensures Around(i, n, |s.run|) < |s.run| && Good(Scheduled(s, n))
    ensures Scheduled(s, n).idle == s.idle && s.idle in Scheduled(s, n).states
    ensures Scheduled(s, n).run == s.run && Scheduled(s, n).current == s.run[Around(i, n, |s.run|)]
  {
    if n > 0 {
      RoundRobin(s, i, n - 1);
      var s1 := Scheduled(s, n - 1);
      NextIs(s1, Around(i, n - 1, |s.run|));
      ScheduleGood(s1);
    }
  }

  /** Any |run| consecutive calls select each queued process exactly once: process `j` at call `Turn`, and at no
      other. */
  lemma EachOnce(s: Sched, i: nat, j: nat, n: nat)
    requires Good(s) && s.idle in s.states && i < |s.run| && s.current == s.run[i] && j < |s.run| && 1 <= n <= |s.run|
    ensures Scheduled(s, n).current == s.run[j] <==> n == Turn(i, j, |s.run|)
    ensures 1 <= Turn(i, j, |s.run|) <= |s.run|
  {
    RoundRobin(s, i, n);
    AroundIs(i, n, |s.run|);
    IndexUnique(s.run, Around(i, n, |s.run|));
    IndexUnique(s.run, j);
  }

  function Turn(i: nat, j: nat, len: nat): int {
    if j > i then j - i else len - i + j
  }

  /** The idle process is selected only when the run queue is empty. */
  lemma IdleIffEmpty(s: Sched)
    requires Good(s)
    ensures Schedule(s).current == s.idle <==> s.run == []
  {
    var n := Next(s);
    if s.run != [] {
      assert n in s.run;
    }
  }

  // ----- the code -----

  class ProcessQueues {
    const runQueue: Queue
    const blockedQueue: Queue
    const idle: Process
    var current: Process?
    var needReschedule: bool
    ghost var s: Sched
    ghost var procs: set<Process>

    /** The queues are linked up as `s` says, no process is in both, and one that is in neither is linked to nothing. */
    ghost predicate Wired()
      reads this`s, this`procs, runQueue, blockedQueue, runQueue.nodes`next, runQueue.nodes`prev,
            blockedQueue.nodes`next, blockedQueue.nodes`prev, procs`next, procs`prev
    {
      && runQueue != blockedQueue && runQueue.Valid() && blockedQueue.Valid() && s.run == runQueue.nodes
      && s.blocked == blockedQueue.nodes
      && (forall p :: p in s.run ==> p in procs && p !in s.blocked) && (forall p :: p in s.blocked ==> p in procs)
      && (forall p :: p in procs && p !in s.run && p !in s.blocked ==> Detached(p))
    }

    ghost predicate Valid()
      reads this, runQueue, blockedQueue, runQueue.nodes`next, runQueue.nodes`prev, blockedQueue.nodes`next,
            blockedQueue.nodes`prev, procs
    {
      Wired() && s.current == current && s.idle == idle && idle in procs && s.states.Keys == procs
        && forall p :: p in procs ==> p.state == s.states[p]
    }

    /** init_scheduler: the idle process is made like any other, and taken out of the run queue again. */
    constructor ()
      ensures Valid() && fresh(runQueue) && fresh(blockedQueue) && fresh(idle) && needReschedule
      ensures s == Sched([], [], map[idle := Running], null, idle)
    {
      var run := new Queue();
      var blocked := new Queue();
      var p := new Process(Running);
      run.Insert(p);
      run.Remove(p);
      assert run.nodes == [] && blocked.nodes == [] && Detached(p);
      hide Removed, IndexOf, Placed;
      runQueue, blockedQueue, idle, current, needReschedule := run, blocked, p, null, true;
      s, procs := Sched([], [], map[p := Running], null, p), {p};
    }

    // The queue operations, each with what it does to `s`.

    method UnlinkRun(p: Process)
      requires Wired() && p in procs && (p in s.run || (s.run == [] && p !in s.blocked))
      modifies this`s, runQueue, procs`next, procs`prev
      ensures Wired() && s == old(s).(run := Removed(old(s).run, p)) && p !in s.run
    {
      LeftHas(s.run, p);
      runQueue.Remove(p);
      s := s.(run := runQueue.nodes);
      LinksKept(blockedQueue);
    }

    method LeaveRun(p: Process)
      requires Valid() && p in procs && (p in s.run || (s.run == [] && p !in s.blocked))
      modifies this`s, runQueue, procs`next, procs`prev
      ensures Valid() && s == old(s).(run := Removed(old(s).run, p)) && p !in s.run
    {
      UnlinkRun(p);
    }

    method UnlinkBlocked(p: Process)
      requires Wired() && p in s.blocked
      modifies this`s, blockedQueue, procs`next, procs`prev
      ensures Wired() && s == old(s).(blocked := Removed(old(s).blocked, p)) && p !in s.blocked
    {
      LeftHas(s.blocked, p);
      blockedQueue.Remove(p);
      s := s.(blocked := blockedQueue.nodes);
      LinksKept(runQueue);
    }

    method LeaveBlocked(p: Process)
      requires Valid() && p in s.blocked
      modifies this`s, blockedQueue, procs`next, procs`prev
      ensures Valid() && s == old(s).(blocked := Removed(old(s).blocked, p)) && p !in s.blocked
    {
      UnlinkBlocked(p);
    }

    method EnterRun(p: Process)
      requires Valid() && p in procs && p !in s.run && p !in s.blocked
      modifies this`s, runQueue, procs`next, procs`prev
      ensures Valid() && s == old(s).(run := [p] + old(s).run)
    {
      ghost var was := s;
      runQueue.Insert(p);
      s := s.(run := runQueue.nodes);
      LinksKept(blockedQueue);
      assert forall q :: q in s.run <==> q == p || q in was.run;
    }

    method EnterBlocked(p: Process)
      requires Valid() && p in procs && p !in s.run && p !in s.blocked
      modifies this`s, blockedQueue, procs`next, procs`prev
      ensures Valid() && s == old(s).(blocked := [p] + old(s).blocked)
    {
      ghost var was := s;
      blockedQueue.Insert(p);
      s := s.(blocked := blockedQueue.nodes);
      LinksKept(runQueue);
      assert forall q :: q in s.blocked <==> q == p || q in was.blocked;
    }

    method SetState(p: Process, st: State)
      requires Valid() && p in procs
      modifies this`s, p`state
      ensures Valid() && s == old(s).(states := old(s).states[p := st])
    {
      p.state := st;
      s := s.(states := s.states[p := st]);
    }

    /** Take a process out of the queue its state says. */
    method Unqueue(p: Process)
      requires Valid() && p in procs && p in s.states && Queued(s, p)
      requires p.state == Stopped || p.state == Exited ==> s.run == []
      modifies this`s, runQueue, blockedQueue, procs`next, procs`prev
      ensures Valid() && s == if p.state == Blocked then old(s).(blocked := Removed(old(s).blocked, p))
              else old(s).(run := Removed(old(s).run, p))
    {
      if p.state == Blocked {
        LeaveBlocked(p);
      } else {
        LeaveRun(p);
      }
    }

    method MoveToBlocked(p: Process)
      requires Valid() && p in s.run
      modifies this`s, runQueue, blockedQueue, procs`next, procs`prev
      ensures Valid() && s == old(s).(run := Removed(old(s).run, p), blocked := [p] + old(s).blocked)
    {
      LeaveRun(p);
      EnterBlocked(p);
    }

    // The scheduler's own.

    /** insert_proc, of a process that has just been made. */
    method InsertProc(p: Process)
      requires Valid() && p !in procs && Detached(p) && p.state == Running
      modifies this`s, this`procs, runQueue, procs`next, procs`prev, p
      ensures Valid() && s == Add(old(s), p) && procs == old(procs) + {p}
    {
      procs := procs + {p};
      s := s.(states := s.states[p := Running]);
      EnterRun(p);
    }

    /**
     exit_proc, up to waking a waiting parent, which is a resume_proc of its
     own. Of a stopped process it leaves a run queue that is empty, whatever
     was in it.
     */
    method ExitProc(p: Process)
      requires Valid() && p in procs && p in s.states && Queued(s, p)
      modifies this`s, this`needReschedule, runQueue, blockedQueue, procs
      ensures p.state == Exited && needReschedule == (old(needReschedule) || old(p.state) != Exited)
      ensures !(old(p.state) == Stopped && old(s).run != []) ==> Valid() && s == Exit(old(s), p)
      ensures old(p.state) == Stopped ==> runQueue.Valid() && runQueue.nodes == Exit(old(s), p).run == []
    {
      if p.state == Exited {
        return;
      }
      needReschedule := true;
      if p.state == Stopped {
        ExitStopped(p);
      } else {
        Unqueue(p);
        SetState(p, Exited);
      }
    }

    method ExitStopped(p: Process)
      requires Valid() && p in procs && p in s.states && Queued(s, p) && p.state == Stopped
      modifies this`s, runQueue, procs`next, procs`prev, p`state
      ensures p.state == Exited
      ensures old(s).run == [] ==> Valid() && s == Exit(old(s), p)
      ensures runQueue.Valid() && runQueue.nodes == Exit(old(s), p).run == []
    {
      ghost var was := s;
      runQueue.Remove(p);
      p.state := Exited;
      s := s.(run := [], states := s.states[p := Exited]);
      assert runQueue.nodes == [];
      hide Removed, IndexOf;
      if was.run == [] {
        LinksKept(blockedQueue);
      }
    }

    /** stop_proc. */
    method StopProc(p: Process)
      requires Valid() && p in procs && p in s.states && Queued(s, p)
      modifies this`s, this`needReschedule, runQueue, blockedQueue, procs
      ensures Valid() && s == Stop(old(s), p)
      ensures needReschedule == (old(needReschedule) || (old(p.state) != Exited && old(p.state) != Stopped))
    {
      if p.state == Exited || p.state == Stopped {
        return;
      }
      Unqueue(p);
      SetState(p, Stopped);
      needReschedule := true;
    }

    /** suspend_proc. */
    method SuspendProc(p: Process)
      requires Valid() && p in procs && p in s.states && Queued(s, p)
      modifies this`s, this`needReschedule, runQueue, blockedQueue, procs
      ensures Valid() && s == Suspend(old(s), p)
      ensures needReschedule == (old(needReschedule) || old(p.state) == Running)
    {
      if p.state != Running {
        return;
      }
      MoveToBlocked(p);
      SetState(p, Blocked);
      needReschedule := true;
    }

    /** resume_proc. */
    method ResumeProc(p: Process)
      requires Valid() && p in procs && p in s.states && Queued(s, p)
      modifies this`s, runQueue, blockedQueue, procs
      ensures Valid() && s == Resume(old(s), p)
    {
      if p.state == Running || p.state == Resuming || p.state == Exited {
        return;
      } else if p.state == Blocked {
        LeaveBlocked(p);
      }
      EnterRun(p);
      SetState(p, Resuming);
    }

    /** cancel_syscall, as far as queues go. */
    method CancelSyscall(p: Process)
      requires Valid() && p in procs && p in s.states && Queued(s, p)
      modifies this`s, runQueue, blockedQueue, procs
      ensures Valid() && s == Cancel(old(s), p)
    {
      if p.state == Blocked {
        ResumeProc(p);
      }
      if p.state == Resuming {
        SetState(p, Running);
      }
    }

    /** Take one process out of the run queue and put it after another, in the links. */
    method RelinkBehind(p: Process, c: Process)
      requires Wired() && p in procs && c in procs && p != c && p !in s.blocked && c !in s.blocked
      modifies this`s, runQueue, procs`next, procs`prev
      ensures p in old(s).run && c in old(s).run ==>
                Wired() && Placed(Removed(old(s).run, p), p, c) == Some(s.run) && s == old(s).(run := s.run)
      ensures !(p in old(s).run && c in old(s).run) ==>
                Placed(Removed(old(s).run, p), p, c) == None && forall ns :: runQueue.Represents(ns) ==> p !in ns
    {
      ghost var was := s.run;
      runQueue.Move(p, c);
      s := s.(run := runQueue.nodes);
      if p in was && c in was {
        LinksKept(blockedQueue);
        MovedHas(was, p, c, s.run);
      }
    }

    /**
     reschedule_proc_to_now, when both processes are active. If one of them is
     not queued, the links make up no run queue that the process is in.
     */
    method MoveBehind(p: Process, c: Process)
      requires Valid() && p in procs && c in procs && p != c && p !in s.blocked && c !in s.blocked
      modifies this`s, runQueue, procs`next, procs`prev
      ensures p in old(s).run && c in old(s).run ==>
                Valid() && Placed(Removed(old(s).run, p), p, c) == Some(s.run) && s == old(s).(run := s.run)
      ensures !(p in old(s).run && c in old(s).run) ==>
                Placed(Removed(old(s).run, p), p, c) == None && forall ns :: runQueue.Represents(ns) ==> p !in ns
    {
      RelinkBehind(p, c);
    }

    /** reschedule_proc_to_now. */
    method RescheduleToNow(p: Process)
      requires Valid() && p in procs && p in s.states && (Active(p.state) ==> p !in s.blocked)
      requires current != null && current in procs && (Active(current.state) ==> current !in s.blocked)
      modifies this`s, runQueue, procs`next, procs`prev
      ensures MoveToNow(old(s), p).Some? ==> Valid() && MoveToNow(old(s), p) == Some(s)
      ensures MoveToNow(old(s), p) == None ==> Active(p.state) && forall ns :: runQueue.Represents(ns) ==> p !in ns
    {
      if p == current || !Active(p.state) || !Active(current.state) {
        return;
      }
      MoveBehind(p, current);
    }

    /** resume_proc_without_restart. */
    method ResumeWithoutRestart(p: Process)
      requires Valid() && Good(s) && Known(s, p)
      requires current != null && (current == idle ==> s.states[idle] != Blocked)
      modifies this`s, runQueue, blockedQueue, procs
      ensures p in old(s).states
      ensures ResumeNow(old(s), p).Some? ==> Valid() && ResumeNow(old(s), p) == Some(s)
      ensures ResumeNow(old(s), p) == None ==> Active(p.state) && forall ns :: runQueue.Represents(ns) ==> p !in ns
    {
      assert Queued(s, p);
      ResumeGood(s, p);
      assert Queued(Resume(s, p), p);
      assert current != idle ==> Queued(Resume(s, p), current);
      ResumeProc(p);
      SetState(p, Running);
      RescheduleToNow(p);
    }

    /** schedule. */
    method ScheduleNext()
      requires Valid() && (current != null ==> current in s.states)
      requires current != null ==> Queued(s, current) || (current == idle && idle !in s.run && idle !in s.blocked)
      modifies this`s, this`current, this`needReschedule, procs`state
      ensures Valid() && s == Schedule(old(s)) && !needReschedule
    {
      SelectNext();
      if current.state == Resuming {
        SetState(current, Running);
      }
    }

    /** The process schedule() switches to. */
    method SelectNext()
      requires Valid() && (current != null ==> current in s.states)
      requires current != null ==> Queued(s, current) || (current == idle && idle !in s.run && idle !in s.blocked)
      modifies this`s, this`current, this`needReschedule
      ensures Valid() && current != null && current in procs && s == old(s).(current := Next(old(s)))
      ensures !needReschedule
    {
      needReschedule := false;
      current := PickNext();
      s := s.(current := current);
    }

    method PickNext() returns (p: Process)
      requires Valid() && (current != null ==> current in s.states)
      requires current != null ==> Queued(s, current) || (current == idle && idle !in s.run && idle !in s.blocked)
      ensures p in procs && p == Next(s)
    {
      var node: Process?;
      if current != null {
        SuccessorOf(current);
      }
      if current == null || !Active(current.state) || current.next == null {
        node := runQueue.head;
      } else {
        node := current.next;
      }
      p := if node != null then node else idle;
    }

    /** The link of an active process leads to the one after it in the run queue. */
    lemma SuccessorOf(c: Process)
      requires Valid() && c in s.states && (Queued(s, c) || (c == idle && idle !in s.run && idle !in s.blocked))
      ensures Active(c.state) ==> c.next == var k := IndexOf(s.run, c); if k + 1 < |s.run| then s.run[k + 1] else null
    {
      var k := IndexOf(s.run, c);
      assert k < |s.run| ==> Linked(s.run, k);
    }
  }

  /** Who is left in a queue, of one process or of none. */
  lemma LeftHas(nodes: seq<Process>, p: Process)
    requires Distinct(nodes) && (p in nodes || nodes == [])
    ensures forall q :: q in Removed(nodes, p) <==> q in nodes && q != p
  {
    forall q
      ensures q in Removed(nodes, p) <==> q in nodes && q != p
    {
      if p in nodes {
        RemovedHas(nodes, p, q);
      }
    }
  }

  lemma MovedHas(nodes: seq<Process>, p: Process, c: Process, r: seq<Process>)
    requires Distinct(nodes) && p in nodes && Placed(Removed(nodes, p), p, c) == Some(r)
    ensures forall q :: q in r <==> q in nodes
  {
    LeftHas(nodes, p);
    var rest := Removed(nodes, p);
    InsertedHas(rest, IndexOf(rest, c) + 1, p, r);
  }

  lemma InsertedHas(nodes: seq<Process>, k: nat, p: Process, r: seq<Process>)
    requires k <= |nodes| && r == nodes[..k] + [p] + nodes[k..]
    ensures forall q :: q in r <==> q == p || q in nodes
  {
    assert nodes == nodes[..k] + nodes[k..];
  }
}
