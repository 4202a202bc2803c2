/** Who parks in `wait4`. The test for a child looks for process entries, and only thread 1
    is one, so the answer is not the one its documentation gives. */
module SchedulerWaits {
  import opened Bytes
  import opened GuestMemory
  import opened Outcome
  import opened Scheduler
  import opened SchedulerSafety
  import opened SchedulerRuns
  import opened SchedulerTheorems

  /** `has_child` asks whether thread 1 is another thread, and still there. */
  lemma HasChildExactly(s: State, threads: seq<Thread>, i: nat)
    requires OneProcess(s) && i < |s.threads| && |threads| == |s.threads|
    requires forall j :: 0 <= j < |threads| ==> SameEntry(s.threads[j], threads[j]) && threads[j].exited == s.threads[j].exited
    ensures HasChild(threads, i) <==> i != 0 && !s.threads[0].exited
  {
    if i != 0 && !s.threads[0].exited {
      assert SameEntry(s.threads[0], threads[0]) && threads[0].isProcess && !threads[0].exited;
    }
    if HasChild(threads, i) {
      var j :| 0 <= j < |threads| && j != i && threads[j].isProcess && !threads[j].exited;
      assert SameEntry(s.threads[j], threads[j]);
    }
  }

  predicate NoMatch(s: State, want: i32) { forall z :: z in s.zombies ==> !Matches(want, z) }

  /** A `wait4` parks its thread exactly when no zombie matches, it may block, the caller is
      not thread 1 and thread 1 is still there, whether or not anyone has a child. */
  lemma ParksExactly(s: State, i: nat, want: i32, ptr: u32, options: u32)
    requires Inv(s) && i < |s.threads| && s.phase == Running(i)
    ensures ServeWait4(s, i, want, ptr, options).threads[i].waiting.Some? <==>
      NoMatch(s, want) && options % 2 == 0 && i != 0 && !s.threads[0].exited
  {
    hide HasChild, ReapOne, Numbered, Balanced, Named, Settled;
    var m := StartWait(s, i, want, ptr);
    ReapOneReaps(m, i);
    HasChildExactly(s, m.threads, i);
    assert ReapOne(m, i).1 <==> !NoMatch(s, want) by { ReapsExactly(m, i); }
  }

  lemma ReapsExactly(s: State, w: nat)
    requires w < |s.threads| && s.threads[w].waiting.Some?
    ensures ReapOne(s, w).1 <==> !NoMatch(s, s.threads[w].waiting.value.want)
  {
    hide HandOver;
    FirstMatchIn(s.zombies, s.threads[w].waiting.value.want);
  }

  // ===== thread 1 never waits =====

  /** Nobody but the caller of a `wait4` starts waiting. */
  predicate NoNewWaiter(s: State, r: State, except: Option<nat>) {
    forall j :: 0 <= j < |r.threads| && r.threads[j].waiting.Some? && Some(j) != except ==>
      j < |s.threads| && s.threads[j].waiting.Some?
  }

  lemma ReapedWaits(s: State, r: State)
    requires Reaped(s, r)
    ensures NoNewWaiter(s, r, None)
  {
    hide ZombiesOf, PayAll;
    forall j | 0 <= j < |r.threads| && r.threads[j].waiting.Some? ensures s.threads[j].waiting.Some? {
      assert Served(s.threads[j], r.threads[j]);
    }
  }

  lemma BuryWaits(s: State, tid: i32, code: i32)
    ensures NoNewWaiter(s, Bury(s, tid, code), None)
  {
    hide ReapWaiters;
    var m := s.(zombies := s.zombies + [Ended(tid, code).AsZombie()], ended := s.ended + [Ended(tid, code)]);
    ReapWaitersSettles(m);
    ReapedWaits(m, ReapWaiters(m));
  }

  lemma ConcludeWaits(s: State, i: nat, code: i32)
    requires i < |s.threads|
    ensures NoNewWaiter(s, Conclude(s, i, code), None)
  {
    hide Bury, AllExited;
    BuryWaits(s, s.threads[i].tid, code);
  }

  lemma ReleaseWaits(m: State, c: u32)
    ensures NoNewWaiter(m, ReleaseJoiners(m, c), None) && |ReleaseJoiners(m, c).threads| == |m.threads|
  {
    hide Waiters, Store32;
  }

  lemma CloneWaits(s: State, i: nat, flags: u64, ptid: u32, ctid: u32, child: ChildRun)
    requires i < |s.threads|
    ensures NoNewWaiter(s, ServeClone(s, i, flags, ptid, ctid, child), None)
  {
    hide RunChild, SetTids, Bury;
    if !Bit(flags, CLONE_THREAD) {
      var m := Issue(s, i, flags, ptid, ctid);
      var (code, k) := RunChild(child, FreshChild(m.nextTid, m.exitCode));
      BuryWaits(m.(nextTid := k.nextPid, exitCode := k.exitCode, issued := m.issued + k.issued), s.nextTid, code);
    }
  }

  lemma Wait4Waits(s: State, i: nat, want: i32, ptr: u32, options: u32)
    requires i < |s.threads|
    ensures NoNewWaiter(s, ServeWait4(s, i, want, ptr, options), Some(i))
  {
    hide ReapOne, HasChild;
    var m := StartWait(s, i, want, ptr);
    ReapOneReaps(m, i);
    ReapedWaits(m, ReapOne(m, i).0);
  }

  lemma ExitWaits(s: State, i: nat, a0: u64)
    requires i < |s.threads|
    ensures NoNewWaiter(s, ServeExit(s, i, a0), None)
  {
    hide Conclude, ReleaseJoiners;
    var m := MarkExited(s, i);
    ReleaseWaits(m, s.threads[i].clearChildTid);
    ConcludeWaits(ReleaseJoiners(m, s.threads[i].clearChildTid), i, AsI32(a0));
  }

  lemma ExecveWaits(s: State, i: nat, outcome: Option<i32>)
    requires i < |s.threads|
    ensures NoNewWaiter(s, ServeExecve(s, i, outcome), None)
  {
    hide Conclude;
    if outcome.Some? {
      ConcludeWaits(MarkExited(s, i), i, outcome.value);
    }
  }

  lemma FutexWaits(s: State, i: nat, uaddr: u32, op: u32, val: u32)
    requires i < |s.threads|
    ensures NoNewWaiter(s, ServeFutex(s, i, uaddr, op, val), None)
  {
    hide Waiters, Load32;
  }

  /** A thread comes to wait only by its own `wait4`. */
  lemma WaitsOnlyByWait4(s: State, e: Event, r: State)
    requires Step(s, e) == Some(r)
    ensures NoNewWaiter(s, r, if e.Wait4? && s.phase.Running? then Some(s.phase.idx) else None)
  {
    hide ServeClone, ServeWait4, ServeExit, ServeExecve, ServeFutex, PickFrom;
    if s.phase.Running? {
      var i := s.phase.idx;
      match e
      case Exit(a0) => ExitWaits(s, i, a0);
      case Execve(outcome) => ExecveWaits(s, i, outcome);
      case Clone(flags, a2, a3, child) => CloneWaits(s, i, flags, AsU32(a2), AsU32(a3), child);
      case Wait4(a0, a1, a2) => Wait4Waits(s, i, AsI32(a0), AsU32(a1), AsU32(a2));
      case Futex(a0, a1, a2) => FutexWaits(s, i, AsU32(a0), AsU32(a1), AsU32(a2));
      case Continue(_, _) =>
      case QuantumEnd =>
      case Halt =>
      case Trap =>
      case SchedYield =>
      case Other(_, _, _) =>
    }
  }

  lemma MainStep(s: State, e: Event, r: State)
    requires Inv(s) && Step(s, e) == Some(r) && s.threads[0].waiting.None? && |r.threads| > 0
    ensures r.threads[0].waiting.None?
  {
    hide ServeWait4, Serve, ChooseNext, Numbered, Balanced, Named, Settled;
    WaitsOnlyByWait4(s, e, r);
    if e.Wait4? && s.phase == Running(0) {
      ParksExactly(s, 0, AsI32(e.a0), AsU32(e.a1), AsU32(e.a2));
      assert r == ServeWait4(s, 0, AsI32(e.a0), AsU32(e.a1), AsU32(e.a2)) by { Wait4Step(s, 0, e); }
    }
  }

  lemma Wait4Step(s: State, i: nat, e: Event)
    requires s.phase == Running(i) && i < |s.threads| && e.Wait4?
    ensures Step(s, e) == Some(ServeWait4(s, i, AsI32(e.a0), AsU32(e.a1), AsU32(e.a2)))
  {
    hide ServeWait4;
  }

  /** In no state of any run does thread 1 wait for a child: it always has its answer at once. */
  lemma {:induction false} MainNeverWaits(states: seq<State>, events: seq<Event>, k: nat)
    requires Run(states, events) && k < |states|
    ensures |states[k].threads| > 0 && states[k].threads[0].tid == 1 && states[k].threads[0].waiting.None?
    decreases k
  {
    hide Step, Numbered, Balanced, Named, Settled, ThreadsOk;
    RunKeeps(states, events, k);
    if k > 0 {
      MainNeverWaits(states, events, k - 1);
      RunKeeps(states, events, k - 1);
      MainStep(states[k - 1], events[k - 1], states[k]);
    }
  }
}
