/** When leaving ends the run, and when it releases joiners: less often than the loop's
    documentation says. */
module SchedulerExits {
  import opened Bytes
  import opened GuestMemory
  import opened Outcome
  import opened Scheduler
  import opened SchedulerSafety
  import opened SchedulerRuns
  import opened SchedulerTheorems

  predicate OthersExited(s: State, i: nat) {
    forall j :: 0 <= j < |s.threads| && j != i ==> s.threads[j].exited
  }

  lemma ReleasedFlags(m: State, c: u32)
    ensures var w := ReleaseJoiners(m, c);
      && |w.threads| == |m.threads| && w.exitCode == m.exitCode
      && forall j :: 0 <= j < |m.threads| ==>
        w.threads[j].exited == m.threads[j].exited && w.threads[j].tid == m.threads[j].tid
          && w.threads[j].isProcess == m.threads[j].isProcess
  {
    hide Waiters, Store32;
  }

  lemma ConcludeEnds(s: State, i: nat, code: i32)
    requires OneProcess(s) && i < |s.threads| && s.threads[i].exited
    ensures Conclude(s, i, code).exitCode.Some? <==>
      s.exitCode.Some? || s.threads[i].tid == 1 || OthersExited(s, i)
  {
    hide Bury;
    if AllExited(s.threads) {
      forall j | 0 <= j < |s.threads| && j != i ensures s.threads[j].exited {
        assert s.threads[j] in s.threads;
      }
    }
    if OthersExited(s, i) {
      forall t | t in s.threads ensures t.exited {
        var j :| 0 <= j < |s.threads| && s.threads[j] == t;
      }
    }
  }

  /** `exit` and `exit_group` alike end the run exactly when thread 1 leaves or everyone
      else has left. */
  lemma ExitEndsRun(s: State, i: nat, a0: u64)
    requires Inv(s) && i < |s.threads| && s.phase == Running(i)
    ensures ServeExit(s, i, a0).exitCode.Some? <==>
      s.exitCode.Some? || s.threads[i].tid == 1 || OthersExited(s, i)
  {
    hide Conclude, ReleaseJoiners, Numbered, Balanced, Named;
    var m := MarkExited(s, i);
    var w := ReleaseJoiners(m, s.threads[i].clearChildTid);
    ReleasedFlags(m, s.threads[i].clearChildTid);
    assert OneProcess(w);
    ConcludeEnds(w, i, AsI32(a0));
    assert OthersExited(w, i) <==> OthersExited(s, i) by {
      forall j | 0 <= j < |s.threads| && j != i ensures w.threads[j].exited == s.threads[j].exited {
        assert m.threads[j] == s.threads[j];
      }
    }
  }

  // ===== a sibling's exit_group leaves the others running =====

  const SPAWN: Event := Clone(CLONE_THREAD, 0, 0, OutOfBudget)

  const MAIN_ALONE: seq<Event> := [Choose(false), SPAWN, Choose(false), QuantumEnd, Choose(false), Exit(0)]

  function Thread2(): Thread { Thread(2, None, 0, false, false, None, 0) }

  /** Main spawns a thread, runs on, and is preempted. */
  lemma SpawnedAndPreempted(memory: Memory, rax: u64) returns (states: seq<State>)
    ensures Run(states, MAIN_ALONE[..5])
    ensures var s := states[5];
      && s.phase == Running(1) && s.exitCode.None? && |s.threads| == 2
      && s.threads[0].Runnable() && s.threads[0].tid == 1 && s.threads[1] == Thread2()
  {
    hide Store32, RunChild;
    var s0 := Initial(memory, rax);
    var main := s0.threads[0];
    assert main.Runnable();
    assert Pick(s0.threads, 0) == Some(0);
    var s1 := Step(s0, Choose(false)).value;
    assert s1 == s0.(phase := Running(0));
    var s2 := Step(s1, SPAWN).value;
    assert Bit(CLONE_THREAD, CLONE_THREAD);
    assert s2.threads == [main.(rax := 2), Thread2()] && s2.phase == Choosing && s2.cur == 0;
    assert s2.threads[0].Runnable() && Pick(s2.threads, 0) == Some(0);
    var s3 := Step(s2, Choose(false)).value;
    assert s3 == s2.(phase := Running(0), cur := 1);
    var s4 := Step(s3, QuantumEnd).value;
    assert s4.threads[1].Runnable() && Pick(s4.threads, 1) == Some(1);
    var s5 := Step(s4, Choose(false)).value;
    states := [s0, s1, s2, s3, s4, s5];
    assert MAIN_ALONE[..5] == [Choose(false), SPAWN, Choose(false), QuantumEnd, Choose(false)];
  }

  /** In a run where a sibling calls `exit_group` the run does not end, and thread 1 stays
      runnable. */
  lemma SiblingExitGroup(memory: Memory, rax: u64) returns (states: seq<State>)
    ensures Run(states, MAIN_ALONE)
    ensures var s := states[6];
      s.exitCode.None? && s.phase.Choosing? && |s.threads| == 2 && s.threads[1].exited && s.threads[0].Runnable()
  {
    hide Initial, Conclude, Numbered, Balanced, Named;
    var before := SpawnedAndPreempted(memory, rax);
    var s := before[5];
    RunKeeps(before, MAIN_ALONE[..5], 5);
    var r := ServeExit(s, 1, 0);
    assert Step(s, Exit(0)) == Some(r);
    assert s.threads[1].clearChildTid == 0;
    ExitEndsRun(s, 1, 0);
    assert !s.threads[0].exited && !OthersExited(s, 1);
    ConcludeSimple(MarkExited(s, 1), 1, 0);
    states := before + [r];
    assert MAIN_ALONE == MAIN_ALONE[..5] + [Exit(0)];
    Extend(before, MAIN_ALONE[..5], Exit(0), r);
  }

  lemma Extend(states: seq<State>, events: seq<Event>, e: Event, r: State)
    requires Run(states, events) && Step(states[|events|], e) == Some(r)
    ensures Run(states + [r], events + [e])
  {
    hide Step;
    var memory, rax :| states[0] == Initial(memory, rax);
    var ss, es := states + [r], events + [e];
    assert ss[0] == Initial(memory, rax);
    forall k | 0 <= k < |es| ensures Step(ss[k], es[k]) == Some(ss[k + 1]) {
      if k < |events| {
        assert ss[k] == states[k] && es[k] == events[k] && ss[k + 1] == states[k + 1];
      }
    }
  }

  // ===== who releases joiners =====

  /** Memory and everyone's futex standing as before. */
  predicate JoinersUntouched(s: State, r: State) {
    && r.memory == s.memory && |r.threads| == |s.threads|
    && forall j :: 0 <= j < |s.threads| ==> r.threads[j].blockedOn == s.threads[j].blockedOn
  }

  /** A thread that leaves through `execve` clears no word and wakes no one. */
  lemma ExecveLeavesJoiners(s: State, i: nat, code: i32)
    requires Inv(s) && i < |s.threads| && s.phase == Running(i)
    ensures JoinersUntouched(s, ServeExecve(s, i, Some(code))) && ServeExecve(s, i, Some(code)).threads[i].exited
  {
    hide Conclude, Numbered, Balanced, Named;
    ConcludeSimple(MarkExited(s, i), i, code);
  }

  /** The step ends the running thread. */
  predicate Leaves(s: State, e: Event, r: State) {
    s.phase.Running? && s.phase.idx < |r.threads| && r.threads[s.phase.idx].exited && Step(s, e) == Some(r)
  }

  lemma NobodyElseLeaves(s: State, i: nat, e: Event)
    requires Inv(s) && s.phase == Running(i) && i < |s.threads| && !e.Choose?
    requires !e.Exit? && !e.Halt? && !(e.Execve? && e.outcome.Some?)
    ensures i < |Serve(s, i, e).threads| && !Serve(s, i, e).threads[i].exited
  {
    hide RunChild, SetTids, ReapOne, ReapWaiters, HasChild, Waiters, Load32, Books, Settled;
    match e
    case Clone(flags, a2, a3, child) => CloneLeavesNot(s, i, flags, AsU32(a2), AsU32(a3), child);
    case Wait4(a0, a1, a2) =>
      var m := StartWait(s, i, AsI32(a0), AsU32(a1));
      ReapOneReaps(m, i);
      assert Served(m.threads[i], ReapOne(m, i).0.threads[i]);
    case Execve(_) =>
    case Continue(_, _) =>
    case QuantumEnd =>
    case Trap =>
    case Futex(_, _, _) =>
    case SchedYield =>
    case Other(_, _, _) =>
  }

  lemma CloneLeavesNot(s: State, i: nat, flags: u64, ptid: u32, ctid: u32, child: ChildRun)
    requires i < |s.threads| && !s.threads[i].exited
    ensures var r := ServeClone(s, i, flags, ptid, ctid, child); i < |r.threads| && !r.threads[i].exited
  {
    hide RunChild, SetTids, ReapWaiters, Ended.AsZombie;
    if !Bit(flags, CLONE_THREAD) {
      var m := Issue(s, i, flags, ptid, ctid);
      var (code, c) := RunChild(child, FreshChild(m.nextTid, m.exitCode));
      var b := m.(nextTid := c.nextPid, exitCode := c.exitCode, issued := m.issued + c.issued,
        zombies := m.zombies + [Ended(s.nextTid, code).AsZombie()], ended := m.ended + [Ended(s.nextTid, code)]);
      ReapWaitersSettles(b);
      assert Served(b.threads[i], ReapWaiters(b).threads[i]);
    }
  }

  /** Joiners are released exactly when the thread leaves by the exit system call: leaving
      by `hlt` or by `execve` leaves the word and everyone parked on it as they were. */
  lemma JoinersReleasedExactly(s: State, e: Event, r: State)
    requires Inv(s) && Leaves(s, e, r) && |s.issued| < I32_MAX
    requires s.threads[s.phase.idx].clearChildTid != 0 && !NoneParked(s, s.threads[s.phase.idx].clearChildTid)
    ensures NoneParked(r, s.threads[s.phase.idx].clearChildTid) <==> e.Exit?
    ensures !e.Exit? ==> JoinersUntouched(s, r)
  {
    hide ServeExit, ServeExecve, ServeClone, ServeWait4, ServeFutex, Books, Settled;
    var i := s.phase.idx;
    if e.Exit? {
      ExitReleases(s, i, e.a0);
    } else if e.Execve? && e.outcome.Some? {
      ExecveLeavesJoiners(s, i, e.outcome.value);
      StillParked(s, r, s.threads[i].clearChildTid);
    } else if e.Halt? {
      StillParked(s, r, s.threads[i].clearChildTid);
    } else {
      NobodyElseLeaves(s, i, e);
    }
  }

  lemma StillParked(s: State, r: State, c: u32)
    requires JoinersUntouched(s, r) && !NoneParked(s, c)
    ensures !NoneParked(r, c)
  {
    var j :| 0 <= j < |s.threads| && s.threads[j].blockedOn == Some(c);
    assert r.threads[j].blockedOn == Some(c);
  }
}
