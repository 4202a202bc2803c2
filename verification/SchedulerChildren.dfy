/** What forks and `wait4` leave in a run's history, tied to the events that caused it and
    to what the guest can see. */
module SchedulerChildren {
  import opened Bytes
  import opened GuestMemory
  import opened Outcome
  import opened Scheduler
  import opened SchedulerSafety
  import opened SchedulerRuns
  import opened SchedulerTheorems

  /** A `fork`, a `vfork`, or a `clone` without `CLONE_THREAD`. */
  predicate IsFork(s: State, e: Event) { s.phase.Running? && e.Clone? && !Bit(e.flags, CLONE_THREAD) }

  /** The exit code of the child that event runs. */
  function ForkCode(s: State, e: Event): i32
    requires e.Clone?
  {
    RunChild(e.child, FreshChild(AsI32(s.nextTid + 1), s.exitCode)).0
  }

  function Forked(s: State, e: Event): seq<Ended> {
    if IsFork(s, e) then [Ended(s.nextTid, ForkCode(s, e))] else []
  }

  /** The state a fork hands to the re-check of parked waiters. */
  function Buried(s: State, i: nat, e: Event): State
    requires i < |s.threads| && e.Clone?
  {
    var m := Issue(s, i, e.flags, AsU32(e.a2), AsU32(e.a3));
    var (code, c) := RunChild(e.child, FreshChild(m.nextTid, m.exitCode));
    m.(nextTid := c.nextPid, exitCode := c.exitCode, issued := m.issued + c.issued,
       zombies := m.zombies + [Ended(s.nextTid, code).AsZombie()], ended := m.ended + [Ended(s.nextTid, code)])
  }

  lemma ForkStep(s: State, i: nat, e: Event)
    requires s.phase == Running(i) && i < |s.threads| && IsFork(s, e)
    ensures Serve(s, i, e) == ReapWaiters(Buried(s, i, e)).(phase := Choosing)
    ensures Buried(s, i, e).ended == s.ended + Forked(s, e) && Buried(s, i, e).delivered == s.delivered
  {
    hide RunChild, ReapWaiters, SetTids, Ended.AsZombie;
  }

  lemma ServeHistory(s: State, i: nat, e: Event)
    requires Inv(s) && s.phase == Running(i) && i < |s.threads| && !e.Choose? && !IsFork(s, e)
    ensures Serve(s, i, e).ended == s.ended
    ensures !e.Wait4? ==> Serve(s, i, e).delivered == s.delivered
  {
    hide RunChild, SetTids, ReapOne, Conclude, HasChild, Woken, Store32, Load32, Numbered, Balanced, Named;
    match e
    case Exit(a0) =>
      var m := ReleaseJoiners(MarkExited(s, i), s.threads[i].clearChildTid);
      assert OneProcess(m) by { ReleaseKeepsProcess(s, i); }
      ConcludeSimple(m, i, AsI32(a0));
    case Execve(outcome) =>
      if outcome.Some? {
        ConcludeSimple(MarkExited(s, i), i, outcome.value);
      }
    case Wait4(a0, a1, a2) =>
      ReapOneReaps(StartWait(s, i, AsI32(a0), AsU32(a1)), i);
    case Clone(_, _, _, _) =>
    case Continue(_, _) =>
    case QuantumEnd =>
    case Halt =>
    case Trap =>
    case Futex(_, _, _) =>
    case SchedYield =>
    case Other(_, _, _) =>
  }

  lemma ReleaseKeepsProcess(s: State, i: nat)
    requires OneProcess(s) && i < |s.threads|
    ensures OneProcess(ReleaseJoiners(MarkExited(s, i), s.threads[i].clearChildTid))
  {
    hide Store32, Woken;
    var m, c := MarkExited(s, i), s.threads[i].clearChildTid;
    if c != 0 {
      WokenEntries(m, ReleaseJoiners(m, c), c);
    }
  }

  /** A fork adds exactly one ended child, under the id it answers; nothing else adds any. */
  lemma ForkRecorded(s: State, e: Event, r: State)
    requires Inv(s) && Step(s, e) == Some(r)
    ensures r.ended == s.ended + Forked(s, e)
    ensures IsFork(s, e) ==> s.phase.idx < |r.threads| && r.threads[s.phase.idx].rax == AsU64(s.nextTid)
  {
    hide Serve, ReapWaiters, Buried, ForkCode, Inv, ServeClone;
    if s.phase.Running? {
      var i := s.phase.idx;
      if IsFork(s, e) {
        var b := Buried(s, i, e);
        ForkStep(s, i, e);
        ReapWaitersSettles(b);
        ForkAnswers(s, i, e);
      } else {
        ServeHistory(s, i, e);
        assert s.ended + [] == s.ended;
      }
    } else {
      assert s.ended + [] == s.ended;
    }
  }

  lemma ForkAnswers(s: State, i: nat, e: Event)
    requires Inv(s) && s.phase == Running(i) && i < |s.threads| && e.Clone?
    ensures i < |Serve(s, i, e).threads| && Serve(s, i, e).threads[i].rax == AsU64(s.nextTid)
  {
    hide ServeClone, Books, Settled;
    IssuedGrows(s, i, e.flags, AsU32(e.a2), AsU32(e.a3), e.child);
    CloneThreads(s, i, e.flags, AsU32(e.a2), AsU32(e.a3), e.child);
  }

  /** The children forked in a trace, in order. */
  function ForkHistory(states: seq<State>, events: seq<Event>): seq<Ended>
    requires |states| == |events| + 1
    decreases |events|
  {
    if events == [] then []
    else
      var n := |events| - 1;
      ForkHistory(states[..n + 1], events[..n]) + Forked(states[n], events[n])
  }

  lemma {:induction false} EndedIsForkHistory(states: seq<State>, events: seq<Event>)
    requires Run(states, events)
    ensures states[|events|].ended == ForkHistory(states, events)
    decreases |events|
  {
    hide Step, Inv, Forked;
    if events != [] {
      var n := |events| - 1;
      assert Run(states[..n + 1], events[..n]) by { RunPrefix(states, events, n); }
      EndedIsForkHistory(states[..n + 1], events[..n]);
      assert states[..n + 1][n] == states[n];
      RunKeeps(states, events, n);
      ForkRecorded(states[n], events[n], states[n + 1]);
    }
  }

  lemma RunPrefix(states: seq<State>, events: seq<Event>, n: nat)
    requires Run(states, events) && n <= |events|
    ensures Run(states[..n + 1], events[..n])
  {
    hide Step;
    var memory, rax :| states[0] == Initial(memory, rax);
    var ss, es := states[..n + 1], events[..n];
    assert ss[0] == Initial(memory, rax);
    forall k | 0 <= k < n ensures Step(ss[k], es[k]) == Some(ss[k + 1]) {
      assert ss[k] == states[k] && es[k] == events[k] && ss[k + 1] == states[k + 1];
    }
  }

  // ===== what a delivery does =====

  /** The memory a delivery in this step writes into. */
  function MemoryBefore(s: State, e: Event): Memory {
    if e.Clone? then SetTids(s.memory, e.flags, AsU32(e.a2), AsU32(e.a3), s.nextTid) else s.memory
  }

  /** The thread was parked in that `wait4`, or makes it now. */
  predicate Asked(s: State, e: Event, d: Delivery) {
    || (d.waiter < |s.threads| && s.threads[d.waiter].waiting == Some(Wait(d.want, d.statusPtr)))
    || (e.Wait4? && s.phase == Running(d.waiter) && d.want == AsI32(e.a0) && d.statusPtr == AsU32(e.a1))
  }

  /** The asker has the child's id and is no longer waiting. */
  predicate Answered(s: State, e: Event, r: State, d: Delivery) {
    && Asked(s, e, d) && Matches(d.want, d.zombie)
    && d.waiter < |r.threads| && r.threads[d.waiter].rax == AsU64(d.zombie.tid) && r.threads[d.waiter].waiting.None?
  }

  /** Every delivery of a step answers a `wait4` that asked for that child: the id is in
      the asker's rax, and the status words are in memory, in order. */
  lemma DeliveriesSeen(s: State, e: Event, r: State)
    requires Inv(s) && Step(s, e) == Some(r)
    ensures s.delivered <= r.delivered
    ensures forall k :: |s.delivered| <= k < |r.delivered| ==> Answered(s, e, r, r.delivered[k])
    ensures r.delivered != s.delivered ==> r.memory == PayAll(MemoryBefore(s, e), r.delivered[|s.delivered|..])
  {
    hide Serve, ReapWaiters, Buried, ServeWait4, MemoryBefore, PayAll, Answered, Inv;
    if s.phase.Running? {
      var i := s.phase.idx;
      if IsFork(s, e) {
        ForkDelivers(s, i, e);
      } else if e.Wait4? {
        Wait4Delivers(s, i, e);
      } else {
        ServeHistory(s, i, e);
      }
    }
  }

  lemma ForkDelivers(s: State, i: nat, e: Event)
    requires Inv(s) && s.phase == Running(i) && i < |s.threads| && IsFork(s, e)
    ensures var r := Serve(s, i, e);
      && s.delivered <= r.delivered
      && (forall k :: |s.delivered| <= k < |r.delivered| ==> Answered(s, e, r, r.delivered[k]))
      && r.memory == PayAll(MemoryBefore(s, e), r.delivered[|s.delivered|..])
  {
    hide Serve, ReapWaiters, PayAll, Forked, Settled, Inv;
    var b := Buried(s, i, e);
    var r := Serve(s, i, e);
    ForkStep(s, i, e);
    BuriedThreads(s, i, e);
    ReapWaitersSettles(b);
    forall k | |s.delivered| <= k < |r.delivered| ensures Answered(s, e, r, r.delivered[k]) {
      assert Handed(b.threads, r.threads, r.delivered[k]);
    }
  }

  lemma BuriedThreads(s: State, i: nat, e: Event)
    requires i < |s.threads| && e.Clone?
    ensures Buried(s, i, e).memory == MemoryBefore(s, e) && |Buried(s, i, e).threads| == |s.threads|
    ensures forall j :: 0 <= j < |s.threads| ==> Buried(s, i, e).threads[j].waiting == s.threads[j].waiting
  {
    hide RunChild, SetTids, Ended.AsZombie;
  }

  lemma Wait4Delivers(s: State, i: nat, e: Event)
    requires Inv(s) && s.phase == Running(i) && i < |s.threads| && e.Wait4?
    ensures var r := Serve(s, i, e);
      && s.delivered <= r.delivered
      && (forall k :: |s.delivered| <= k < |r.delivered| ==> Answered(s, e, r, r.delivered[k]))
      && (r.delivered != s.delivered ==> r.memory == PayAll(MemoryBefore(s, e), r.delivered[|s.delivered|..]))
  {
    hide ReapOne, PayAll, HasChild, Inv;
    var m := StartWait(s, i, AsI32(e.a0), AsU32(e.a1));
    var r := Serve(s, i, e);
    ReapOneReaps(m, i);
    if ReapOne(m, i).1 {
      assert r == ReapOne(m, i).0;
      forall k | |s.delivered| <= k < |r.delivered| ensures Answered(s, e, r, r.delivered[k]) {
        assert Handed(m.threads, r.threads, r.delivered[k]);
      }
    } else {
      assert r.delivered == s.delivered;
    }
  }
}
