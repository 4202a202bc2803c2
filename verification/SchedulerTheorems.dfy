/** Theorems about every run of the scheduler. */
module SchedulerTheorems {
  import opened Bytes
  import opened GuestMemory
  import opened Outcome
  import opened Scheduler
  import opened SchedulerSafety
  import opened SchedulerRuns

  // ===== every reachable state =====

  lemma InitialInv(memory: Memory, rax: u64)
    ensures Inv(Initial(memory, rax))
  {
    var s := Initial(memory, rax);
    assert ZombiesEnded(s.ended) == [] && ZombiesOf(s.delivered) == [];
    assert Ids(2, 0) == [];
    assert Tids(s.threads) == [1];
  }

  lemma ServeKeeps(s: State, i: nat, e: Event)
    requires Inv(s) && s.phase == Running(i) && i < |s.threads| && !e.Choose?
    ensures Inv(Serve(s, i, e))
  {
    hide Books, Settled, ServeExit, ServeClone, ServeExecve, ServeWait4, ServeFutex;
    var r := Serve(s, i, e);
    match e
    case Exit(a0) => ExitKeeps(s, i, a0);
    case Clone(flags, a2, a3, child) => CloneKeeps(s, i, flags, AsU32(a2), AsU32(a3), child);
    case Execve(outcome) => ExecveKeeps(s, i, outcome);
    case Wait4(a0, a1, a2) => Wait4Keeps(s, i, AsI32(a0), AsU32(a1), AsU32(a2));
    case Futex(a0, a1, a2) => FutexKeeps(s, i, AsU32(a0), AsU32(a1), AsU32(a2));
    case QuantumEnd => QuietStep(s, r);
    case Trap => QuietStep(s, r);
    case Continue(_, _) => TouchRunning(s, i, r.threads[i], r);
    case Halt => TouchRunning(s, i, r.threads[i], r);
    case SchedYield => TouchRunning(s, i, r.threads[i], r);
    case Other(_, _, _) => TouchRunning(s, i, r.threads[i], r);
  }

  lemma CloneKeeps(s: State, i: nat, flags: u64, ptid: u32, ctid: u32, child: ChildRun)
    requires Inv(s) && s.phase == Running(i) && i < |s.threads|
    ensures Inv(ServeClone(s, i, flags, ptid, ctid, child))
  {
    hide Inv, Issue, Spawn, ForkChild;
    if Bit(flags, CLONE_THREAD) {
      SpawnKeeps(s, i, flags, ptid, ctid, if Bit(flags, CLONE_CHILD_CLEARTID) then ctid else 0);
    } else {
      ForkKeeps(s, i, flags, ptid, ctid, child);
    }
  }

  lemma StepKeeps(s: State, e: Event, r: State)
    requires Inv(s) && Step(s, e) == Some(r)
    ensures Inv(r)
  {
    hide Inv, Serve, ChooseNext;
    if s.phase.Choosing? {
      ChooseKeeps(s, e.overBudget);
    } else {
      ServeKeeps(s, s.phase.idx, e);
    }
  }

  lemma {:induction false} TraceKeeps(states: seq<State>, events: seq<Event>, k: nat)
    requires Trace(states, events) && Inv(states[0]) && k < |states|
    ensures Inv(states[k])
    decreases k
  {
    hide Inv, Step;
    if k > 0 {
      TraceKeeps(states, events, k - 1);
      StepKeeps(states[k - 1], events[k - 1], states[k]);
    }
  }

  lemma RunKeeps(states: seq<State>, events: seq<Event>, k: nat)
    requires Run(states, events) && k < |states|
    ensures Inv(states[k])
  {
    hide Inv, Trace;
    var memory, rax :| states[0] == Initial(memory, rax);
    InitialInv(memory, rax);
    TraceKeeps(states, events, k);
  }

  /** In every state of every run no thread is both futex-blocked and parked in `wait4`,
      no parked `wait4` matches a zombie, and only thread 1 is a process entry. */
  lemma NeverParkedTwice(states: seq<State>, events: seq<Event>, k: nat)
    requires Run(states, events) && k < |states|
    ensures forall t :: t in states[k].threads ==> !(t.blockedOn.Some? && t.waiting.Some?)
    ensures forall t, z :: t in states[k].threads && t.waiting.Some? && z in states[k].zombies ==>
      !Matches(t.waiting.value.want, z)
    ensures forall t :: t in states[k].threads && t.isProcess ==> t.tid == 1
    ensures states[k].phase.Running? ==>
      states[k].phase.idx < |states[k].threads| && states[k].threads[states[k].phase.idx].Runnable()
  {
    hide Run, Numbered, Balanced, Named;
    RunKeeps(states, events, k);
    var s := states[k];
    forall t | t in s.threads
      ensures !(t.blockedOn.Some? && t.waiting.Some?) && (t.isProcess ==> t.tid == 1)
    {
      var i :| 0 <= i < |s.threads| && s.threads[i] == t;
      assert ThreadOk(s.threads[i]);
    }
  }

  /** Ids come in order from 2, nested children included; below 2^32 - 1 of them no two
      are alike and none is thread 1's. */
  lemma IdsFresh(states: seq<State>, events: seq<Event>, k: nat)
    requires Run(states, events) && k < |states|
    ensures forall j :: 0 <= j < |states[k].issued| ==> states[k].issued[j] == AsI32(2 + j)
    ensures |states[k].issued| < U32 - 1 ==> Distinct([1] + states[k].issued)
    ensures |states[k].issued| < I32_MAX ==> forall j :: 0 <= j < |states[k].issued| ==> states[k].issued[j] == 2 + j
  {
    hide Run;
    RunKeeps(states, events, k);
    var s := states[k];
    if |s.issued| < U32 - 1 {
      var ids := [1] + s.issued;
      forall i, j | 0 <= i < j < |ids| ensures ids[i] != ids[j] {
        IdsDistinct(1, i, j);
        assert ids[i] == AsI32(1 + i) && ids[j] == AsI32(1 + j);
      }
    }
  }

  lemma IssuedGrows(s: State, i: nat, flags: u64, ptid: u32, ctid: u32, child: ChildRun)
    requires i < |s.threads|
    ensures s.issued + [s.nextTid] <= ServeClone(s, i, flags, ptid, ctid, child).issued
    ensures s.threads[i].waiting.None? ==> ServeClone(s, i, flags, ptid, ctid, child).threads[i].rax == AsU64(s.nextTid)
  {
    hide RunChild, SetTids, ReapWaiters;
    if !Bit(flags, CLONE_THREAD) {
      var m := Issue(s, i, flags, ptid, ctid);
      var (code, c) := RunChild(child, FreshChild(m.nextTid, m.exitCode));
      var b := m.(nextTid := c.nextPid, exitCode := c.exitCode, issued := m.issued + c.issued,
        zombies := m.zombies + [Ended(s.nextTid, code).AsZombie()], ended := m.ended + [Ended(s.nextTid, code)]);
      ReapWaitersSettles(b);
      assert Served(b.threads[i], ReapWaiters(b).threads[i]);
    }
  }

  /** What clone, fork and vfork answer is an id no thread, child or earlier call had. */
  lemma CloneAnswersFresh(states: seq<State>, events: seq<Event>, k: nat)
    requires Run(states, events) && k < |events| && events[k].Clone?
    ensures var s, r := states[k], states[k + 1];
      && s.phase.Running? && s.phase.idx < |s.threads| && s.phase.idx < |r.threads|
      && r.threads[s.phase.idx].rax == AsU64(s.nextTid)
      && s.nextTid in r.issued
      && (|r.issued| < U32 - 1 ==>
          && s.nextTid !in s.issued
          && (forall t :: t in s.threads ==> t.tid != s.nextTid)
          && (forall e :: e in s.ended ==> e.tid != s.nextTid))
  {
    hide ServeClone, Balanced, Initial;
    var s, r, e := states[k], states[k + 1], events[k];
    RunKeeps(states, events, k);
    RunKeeps(states, events, k + 1);
    assert Step(s, e) == Some(r) by { RunStep(states, events, k); }
    IssuedGrows(s, s.phase.idx, e.flags, AsU32(e.a2), AsU32(e.a3), e.child);
    CloneThreads(s, s.phase.idx, e.flags, AsU32(e.a2), AsU32(e.a3), e.child);
    assert (s.issued + [s.nextTid])[|s.issued|] == s.nextTid;
    if |r.issued| < U32 - 1 {
      NewId(s);
      forall t | t in s.threads ensures t.tid != s.nextTid {
        var j :| 0 <= j < |s.threads| && s.threads[j] == t;
        assert Tids(s.threads)[j] == t.tid;
      }
      forall x | x in s.ended ensures x.tid != s.nextTid {
        var j :| 0 <= j < |s.ended| && s.ended[j] == x;
        assert EndedIds(s.ended)[j] == x.tid;
      }
    }
  }

  lemma CloneThreads(s: State, i: nat, flags: u64, ptid: u32, ctid: u32, child: ChildRun)
    requires i < |s.threads|
    ensures |ServeClone(s, i, flags, ptid, ctid, child).threads| >= |s.threads|
  {
    hide RunChild, SetTids, ReapWaiters;
  }

  lemma RunStep(states: seq<State>, events: seq<Event>, k: nat)
    requires Run(states, events) && k < |events|
    ensures Step(states[k], events[k]) == Some(states[k + 1])
  {
    hide Step;
  }

  /** Conservation: what ended is on the zombie list or was delivered, as often as it
      ended, with the status its exit code gives, and only to a `wait4` that asked for it. */
  lemma ChildrenConserved(states: seq<State>, events: seq<Event>, k: nat)
    requires Run(states, events) && k < |states|
    ensures var s := states[k];
      && multiset(ZombiesEnded(s.ended)) == multiset(s.zombies) + multiset(ZombiesOf(s.delivered))
      && forall d :: d in s.delivered ==> Matches(d.want, d.zombie)
  {
    hide Run, Numbered, Named, ZombiesEnded, ZombiesOf;
    RunKeeps(states, events, k);
  }

  /** Each child is in exactly one place: still a zombie, or delivered once. */
  lemma ChildInOnePlace(states: seq<State>, events: seq<Event>, k: nat, j: nat)
    requires Run(states, events) && k < |states| && j < |states[k].ended|
    requires |states[k].issued| < U32 - 1
    ensures var s := states[k];
      var z := Zombie(s.ended[j].tid, ExitStatus(s.ended[j].code));
      multiset(s.zombies)[z] + multiset(ZombiesOf(s.delivered))[z] == 1
  {
    hide Run, Numbered;
    RunKeeps(states, events, k);
    var s := states[k];
    var zs := ZombiesEnded(s.ended);
    var z := s.ended[j].AsZombie();
    assert zs[j] == z;
    assert Distinct(EndedIds(s.ended));
    forall i | 0 <= i < |zs| && i != j ensures zs[i] != z {
      assert EndedIds(s.ended)[i] == zs[i].tid && EndedIds(s.ended)[j] == z.tid;
    }
    OnlyOnce(zs, j);
  }

  lemma OnlyOnce(zs: seq<Zombie>, j: nat)
    requires j < |zs| && forall i :: 0 <= i < |zs| && i != j ==> zs[i] != zs[j]
    ensures multiset(zs)[zs[j]] == 1
  {
    RemoveAt(zs, j);
    var others := zs[..j] + zs[j + 1..];
    assert zs[j] !in others;
  }

  /** Driving the loop visits exactly the states of a trace. */
  lemma {:induction false} DriveIsTrace(states: seq<State>, events: seq<Event>)
    requires Trace(states, events)
    ensures Drive(states[0], events) == states[|events|]
    decreases |events|
  {
    hide Step;
    if events != [] {
      TraceTail(states, events, 1);
      DriveIsTrace(states[1..], events[1..]);
      assert states[1..][|events| - 1] == states[|events|];
    }
  }

  // ===== the thread-join protocol =====

  predicate IsWait(e: Event, c: u32) {
    e.Futex? && (AsU32(e.a1) % 128 == 0 || AsU32(e.a1) % 128 == 9) && AsU32(e.a0) == c
  }

  predicate NoneParked(s: State, c: u32) { forall i :: 0 <= i < |s.threads| ==> s.threads[i].blockedOn != Some(c) }

  /** The word at `c` is zero, or cannot be read. */
  predicate Cleared(s: State, c: u32) { Load32(s.memory, c) in {None, Some(0)} }

  /** Who is parked on `c` was so before. */
  predicate NoNewPark(s: State, r: State, c: u32) {
    forall j :: 0 <= j < |r.threads| && r.threads[j].blockedOn == Some(c) ==>
      j < |s.threads| && s.threads[j].blockedOn == Some(c)
  }

  lemma ReapedParks(s: State, r: State, c: u32)
    requires Reaped(s, r)
    ensures NoNewPark(s, r, c)
  {
    hide ZombiesOf;
    forall j | 0 <= j < |r.threads| ensures r.threads[j].blockedOn == s.threads[j].blockedOn {
      assert Served(s.threads[j], r.threads[j]);
    }
  }

  lemma BuryParks(s: State, tid: i32, code: i32, c: u32)
    ensures NoNewPark(s, Bury(s, tid, code), c)
  {
    hide ReapWaiters;
    var m := s.(zombies := s.zombies + [Ended(tid, code).AsZombie()], ended := s.ended + [Ended(tid, code)]);
    ReapWaitersSettles(m);
    ReapedParks(m, ReapWaiters(m), c);
  }

  lemma ConcludeParks(s: State, i: nat, code: i32, c: u32)
    requires i < |s.threads|
    ensures NoNewPark(s, Conclude(s, i, code), c)
  {
    hide Bury, AllExited;
    BuryParks(s, s.threads[i].tid, code, c);
  }

  lemma WokenParks(s: State, r: State, addr: u32, n: int, c: u32)
    requires r.threads == Woken(s.threads, addr, n)
    ensures NoNewPark(s, r, c)
  {
    hide Waiters;
  }

  lemma CloneParks(s: State, i: nat, flags: u64, ptid: u32, ctid: u32, child: ChildRun, c: u32)
    requires i < |s.threads|
    ensures NoNewPark(s, ServeClone(s, i, flags, ptid, ctid, child), c)
  {
    hide RunChild, SetTids, Bury;
    if !Bit(flags, CLONE_THREAD) {
      var m := Issue(s, i, flags, ptid, ctid);
      var (code, k) := RunChild(child, FreshChild(m.nextTid, m.exitCode));
      var b := m.(nextTid := k.nextPid, exitCode := k.exitCode, issued := m.issued + k.issued);
      BuryParks(b, s.nextTid, code, c);
    }
  }

  lemma ExitParks(s: State, i: nat, a0: u64, c: u32)
    requires i < |s.threads|
    ensures NoNewPark(s, ServeExit(s, i, a0), c)
  {
    hide Conclude, Woken, Store32;
    var m := MarkExited(s, i);
    var w := ReleaseJoiners(m, s.threads[i].clearChildTid);
    if s.threads[i].clearChildTid != 0 {
      WokenParks(m, w, s.threads[i].clearChildTid, I32_MAX, c);
    }
    ConcludeParks(w, i, AsI32(a0), c);
  }

  lemma ExecveParks(s: State, i: nat, outcome: Option<i32>, c: u32)
    requires i < |s.threads|
    ensures NoNewPark(s, ServeExecve(s, i, outcome), c)
  {
    hide Conclude;
    if outcome.Some? {
      ConcludeParks(MarkExited(s, i), i, outcome.value, c);
    }
  }

  lemma Wait4Parks(s: State, i: nat, want: i32, ptr: u32, options: u32, c: u32)
    requires i < |s.threads|
    ensures NoNewPark(s, ServeWait4(s, i, want, ptr, options), c)
  {
    hide ReapOne, HasChild;
    var m := StartWait(s, i, want, ptr);
    ReapOneReaps(m, i);
    ReapedParks(m, ReapOne(m, i).0, c);
  }

  lemma FutexParks(s: State, i: nat, e: Event, c: u32)
    requires i < |s.threads| && e.Futex?
    requires IsWait(e, c) ==> Load32(s.memory, c) != Some(AsU32(e.a2))
    ensures NoNewPark(s, Serve(s, i, e), c)
  {
    hide Woken, Load32;
    var cmd := AsU32(e.a1) % 128;
    if cmd == 1 || cmd == 10 {
      var n := AsI32(AsU32(e.a2));
      WokenParks(s, s.(threads := Woken(s.threads, AsU32(e.a0), n)), AsU32(e.a0), n, c);
    }
  }

  /** A thread comes to be parked on `c` only by its own `FUTEX_WAIT` on `c` while the
      word holds the value it expects. */
  lemma ParkedOnlyByWait(s: State, e: Event, r: State, c: u32)
    requires Step(s, e) == Some(r)
    requires IsWait(e, c) ==> Load32(s.memory, c) != Some(AsU32(e.a2))
    ensures NoNewPark(s, r, c)
  {
    hide ServeExit, ServeClone, ServeExecve, ServeWait4, ServeFutex, PickFrom, Load32;
    if s.phase.Running? {
      var i := s.phase.idx;
      match e
      case Exit(a0) => ExitParks(s, i, a0, c);
      case Clone(flags, a2, a3, child) => CloneParks(s, i, flags, AsU32(a2), AsU32(a3), child, c);
      case Execve(outcome) => ExecveParks(s, i, outcome, c);
      case Wait4(a0, a1, a2) => Wait4Parks(s, i, AsI32(a0), AsU32(a1), AsU32(a2), c);
      case Futex(_, _, _) => FutexParks(s, i, e, c);
      case Continue(_, _) =>
      case QuantumEnd =>
      case Halt =>
      case Trap =>
      case SchedYield =>
      case Other(_, _, _) =>
    }
  }

  /** Leaving by `exit` with a clear-child-tid word releases every joiner, and when the
      store succeeds the word then reads zero or not at all. */
  lemma ExitReleases(s: State, i: nat, a0: u64)
    requires Inv(s) && i < |s.threads| && s.threads[i].clearChildTid != 0
    requires |s.issued| < I32_MAX
    ensures NoneParked(ServeExit(s, i, a0), s.threads[i].clearChildTid)
    ensures Store32(s.memory, s.threads[i].clearChildTid, 0).1 ==>
      Cleared(ServeExit(s, i, a0), s.threads[i].clearChildTid)
  {
    hide Conclude, Woken, Store32, Load32, Numbered, Balanced, Named;
    var c := s.threads[i].clearChildTid;
    var m := MarkExited(s, i);
    var w := ReleaseJoiners(m, c);
    WakeAll(m.threads, c, I32_MAX);
    assert NoneParked(w, c) by {
      forall j | 0 <= j < |w.threads| ensures w.threads[j].blockedOn != Some(c) {
        assert w.threads[j] in Woken(m.threads, c, I32_MAX);
      }
    }
    WokenEntries(m, w, c);
    ConcludeSimple(w, i, AsI32(a0));
    if Store32(s.memory, c, 0).1 {
      StoreThenLoad(s.memory, c, 0);
    }
  }

  lemma WokenEntries(m: State, w: State, c: u32)
    requires OneProcess(m) && w.threads == Woken(m.threads, c, I32_MAX)
    ensures OneProcess(w)
  {
    hide Waiters;
  }

  /** The join protocol: once a thread has left by `exit` with its word stored, and for as
      long as the guest keeps that word zero, no thread is parked on it — unless by a
      `FUTEX_WAIT` that expects zero. */
  lemma {:induction false} JoinProtocol(states: seq<State>, events: seq<Event>, i: nat, c: u32, k: nat)
    requires Trace(states, events) && Inv(states[0]) && 1 <= k < |states|
    requires states[0].phase == Running(i) && i < |states[0].threads|
    requires events[0].Exit? && states[0].threads[i].clearChildTid == c != 0
    requires Store32(states[0].memory, c, 0).1 && |states[0].issued| < I32_MAX
    requires forall j :: 2 <= j < k ==> Cleared(states[j], c)
    requires forall j :: 1 <= j < k && IsWait(events[j], c) ==> AsU32(events[j].a2) != 0
    ensures NoneParked(states[k], c)
    ensures k == 1 ==> Cleared(states[k], c)
    decreases k
  {
    hide Inv, Step, Store32, Load32, ServeExit;
    if k == 1 {
      StepIsExit(states[0], i, events[0]);
      ExitReleases(states[0], i, events[0].a0);
    } else {
      JoinProtocol(states, events, i, c, k - 1);
      assert Cleared(states[k - 1], c) by {
        if k == 2 { JoinProtocol(states, events, i, c, 1); }
      }
      ParkedOnlyByWait(states[k - 1], events[k - 1], states[k], c);
    }
  }

  lemma StepIsExit(s: State, i: nat, e: Event)
    requires s.phase == Running(i) && i < |s.threads| && e.Exit?
    ensures Step(s, e) == Some(ServeExit(s, i, e.a0))
  {
    hide ServeExit;
  }

  lemma TraceSlice(states: seq<State>, events: seq<Event>, a: nat, b: nat)
    requires Trace(states, events) && a <= b < |states|
    ensures Trace(states[a..b + 1], events[a..b])
  {
    hide Step;
    forall k | 0 <= k < b - a
      ensures Step(states[a..b + 1][k], events[a..b][k]) == Some(states[a..b + 1][k + 1])
    {
      assert states[a..b + 1][k] == states[a + k] && events[a..b][k] == events[a + k];
      assert states[a..b + 1][k + 1] == states[a + k + 1];
    }
  }

  lemma TraceTail(states: seq<State>, events: seq<Event>, m: nat)
    requires Trace(states, events) && m < |states|
    ensures Trace(states[m..], events[m..])
  {
    hide Step;
    TraceSlice(states, events, m, |events|);
    assert states[m..|events| + 1] == states[m..] && events[m..|events|] == events[m..];
  }

  /** The join protocol from any `exit` of any run. */
  lemma JoinInRuns(states: seq<State>, events: seq<Event>, m: nat, i: nat, c: u32, k: nat)
    requires Run(states, events) && m < k < |states|
    requires states[m].phase == Running(i) && i < |states[m].threads|
    requires events[m].Exit? && states[m].threads[i].clearChildTid == c != 0
    requires Store32(states[m].memory, c, 0).1 && |states[m].issued| < I32_MAX
    requires forall j :: m + 2 <= j < k ==> Cleared(states[j], c)
    requires forall j :: m < j < k && IsWait(events[j], c) ==> AsU32(events[j].a2) != 0
    ensures NoneParked(states[k], c)
  {
    hide Step, Store32, Load32, Inv, Initial, NoneParked, Cleared, IsWait;
    RunKeeps(states, events, m);
    TraceTail(states, events, m);
    var ss, es := states[m..], events[m..];
    forall j | 2 <= j < k - m ensures Cleared(ss[j], c) { assert ss[j] == states[m + j]; }
    forall j | 1 <= j < k - m && IsWait(es[j], c) ensures es[j].Futex? && AsU32(es[j].a2) != 0 {
      assert es[j] == events[m + j];
      assert es[j].Futex? by { WaitIsFutex(es[j], c); }
    }
    JoinProtocol(ss, es, i, c, k - m);
    assert ss[k - m] == states[k];
  }

  lemma WaitIsFutex(e: Event, c: u32)
    requires IsWait(e, c)
    ensures e.Futex?
  {}

  // ===== round robin =====

  /** How far the cyclic scan from `cur` is from `i`. */
  function Distance(cur: nat, i: nat, n: nat): nat
    requires cur < n && i < n
  {
    if i >= cur then i - cur else i + n - cur
  }

  lemma ScanOrder(cur: nat, off: nat, n: nat)
    requires cur < n && off < n
    ensures (cur + off) % n < n && Distance(cur, (cur + off) % n, n) == off
    ensures (cur + off) % n == if cur + off < n then cur + off else cur + off - n
  {
    if cur + off < n {
      ModUnique(cur + off, n, 0, cur + off);
    } else {
      ModUnique(cur + off, n, 1, cur + off - n);
    }
  }

  lemma {:induction false} PickFromExact(threads: seq<Thread>, cur: nat, off: nat)
    requires cur < |threads| && off <= |threads|
    ensures var r := PickFrom(threads, cur, off);
      forall j :: 0 <= j < |threads| && Distance(cur, j, |threads|) >= off && threads[j].Runnable() ==>
        r.Some? && Distance(cur, r.value, |threads|) <= Distance(cur, j, |threads|)
    ensures PickFrom(threads, cur, off).Some? ==> Distance(cur, PickFrom(threads, cur, off).value, |threads|) >= off
    decreases |threads| - off
  {
    if off < |threads| {
      ScanOrder(cur, off, |threads|);
      PickFromExact(threads, cur, off + 1);
      var i := (cur + off) % |threads|;
      forall j | 0 <= j < |threads| && Distance(cur, j, |threads|) == off ensures j == i {
      }
    }
  }

  /** The scan picks the nearest runnable thread, and gives up only when there is none. */
  lemma PickExact(threads: seq<Thread>, cur: nat)
    requires cur < |threads|
    ensures Pick(threads, cur).None? <==> forall t :: t in threads ==> !t.Runnable()
    ensures forall j :: 0 <= j < |threads| && threads[j].Runnable() && Pick(threads, cur).Some? ==>
      Distance(cur, Pick(threads, cur).value, |threads|) <= Distance(cur, j, |threads|)
  {
    hide PickFrom;
    PickFromExact(threads, cur, 0);
    if Pick(threads, cur).None? {
      forall t | t in threads ensures !t.Runnable() {
        var j :| 0 <= j < |threads| && threads[j] == t;
      }
    } else {
      assert threads[Pick(threads, cur).value] in threads;
    }
  }

  /** Choosing another thread brings the scan strictly nearer. */
  lemma ChooseNearer(s: State, over: bool, i: nat)
    requires s.cur < |s.threads| && i < |s.threads| && s.threads[i].Runnable()
    requires ChooseNext(s, over).phase.Running? && ChooseNext(s, over).phase.idx != i && !s.phase.Running?
    ensures var r := ChooseNext(s, over);
      r.cur < |s.threads| && Distance(r.cur, i, |s.threads|) < Distance(s.cur, i, |s.threads|)
  {
    hide Pick;
    var n := |s.threads|;
    var j := Pick(s.threads, s.cur).value;
    PickExact(s.threads, s.cur);
    if j + 1 < n {
      ModUnique(j + 1, n, 0, j + 1);
    } else {
      ModUnique(j + 1, n, 1, 0);
    }
  }

  lemma CurKept(s: State, e: Event, r: State)
    requires Step(s, e) == Some(r) && s.phase.Running?
    ensures r.cur == s.cur
  {
    hide RunChild, SetTids, ReapWaiters, ReapOne, HasChild, AllExited, Woken, Store32, Load32;
    var i := s.phase.idx;
    match e
    case Exit(a0) => ConcludeCur(ReleaseJoiners(MarkExited(s, i), s.threads[i].clearChildTid), i, AsI32(a0));
    case Execve(outcome) => if outcome.Some? { ConcludeCur(MarkExited(s, i), i, outcome.value); }
    case Clone(flags, a2, a3, child) => CloneCur(s, i, flags, AsU32(a2), AsU32(a3), child);
    case Wait4(a0, a1, a2) => ReapOneReaps(StartWait(s, i, AsI32(a0), AsU32(a1)), i);
    case Continue(_, _) =>
    case QuantumEnd =>
    case Halt =>
    case Trap =>
    case Futex(_, _, _) =>
    case SchedYield =>
    case Other(_, _, _) =>
  }

  lemma BuryCur(s: State, tid: i32, code: i32)
    ensures Bury(s, tid, code).cur == s.cur
  {
    hide ReapWaiters;
    ReapWaitersSettles(s.(zombies := s.zombies + [Ended(tid, code).AsZombie()], ended := s.ended + [Ended(tid, code)]));
  }

  lemma ConcludeCur(s: State, i: nat, code: i32)
    requires i < |s.threads|
    ensures Conclude(s, i, code).cur == s.cur
  {
    hide Bury, AllExited;
    BuryCur(s, s.threads[i].tid, code);
  }

  lemma CloneCur(s: State, i: nat, flags: u64, ptid: u32, ctid: u32, child: ChildRun)
    requires i < |s.threads|
    ensures ServeClone(s, i, flags, ptid, ctid, child).cur == s.cur
  {
    hide RunChild, SetTids, Bury;
    var m := Issue(s, i, flags, ptid, ctid);
    var (code, k) := RunChild(child, FreshChild(m.nextTid, m.exitCode));
    BuryCur(m.(nextTid := k.nextPid, exitCode := k.exitCode, issued := m.issued + k.issued), s.nextTid, code);
  }

  predicate Chooses(e: Event, r: State) { e.Choose? && r.phase.Running? }

  /** How many threads are chosen in a stretch. */
  function Choices(states: seq<State>, events: seq<Event>): nat
    requires |states| == |events| + 1
    decreases |events|
  {
    if events == [] then 0
    else (if Chooses(events[0], states[1]) then 1 else 0) + Choices(states[1..], events[1..])
  }

  /** Bounded waiting: while nothing is spawned and thread `i` stays runnable, fewer than
      `n` choices can pass it by. */
  lemma {:induction false} BoundedWaiting(states: seq<State>, events: seq<Event>, i: nat, n: nat)
    requires Trace(states, events) && states[0].cur < n && i < n
    requires forall k :: 0 <= k < |states| ==> |states[k].threads| == n && states[k].threads[i].Runnable()
    requires forall k :: 0 <= k < |events| && Chooses(events[k], states[k + 1]) ==> states[k + 1].phase.idx != i
    ensures Choices(states, events) <= Distance(states[0].cur, i, n) < n
    decreases |events|
  {
    hide Step, Serve, ChooseNext;
    if events != [] {
      var s, e, r := states[0], events[0], states[1];
      assert Step(s, e) == Some(r);
      assert r.cur < n && Distance(r.cur, i, n) + (if Chooses(e, r) then 1 else 0) <= Distance(s.cur, i, n) by {
        NearerStep(s, e, r, i, n);
      }
      TraceTail(states, events, 1);
      BoundedWaiting(states[1..], events[1..], i, n);
    }
  }

  lemma NearerStep(s: State, e: Event, r: State, i: nat, n: nat)
    requires Step(s, e) == Some(r) && s.cur < n && i < n && |s.threads| == n && s.threads[i].Runnable()
    requires Chooses(e, r) ==> r.phase.idx != i
    ensures r.cur < n && Distance(r.cur, i, n) + (if Chooses(e, r) then 1 else 0) <= Distance(s.cur, i, n)
  {
    hide Serve, Pick;
    if s.phase.Running? {
      CurKept(s, e, r);
    } else if r.phase.Running? {
      ChooseNearer(s, e.overBudget, i);
    }
  }

  /** A thread that stays runnable from state `a` to state `b` of a run, while nothing is
      spawned, is chosen within `n` choices. */
  lemma RoundRobin(states: seq<State>, events: seq<Event>, a: nat, b: nat, i: nat, n: nat)
    requires Run(states, events) && a <= b < |states| && i < n
    requires forall k :: a <= k <= b ==> |states[k].threads| == n
    requires forall k :: a <= k <= b ==> states[k].threads[i].Runnable()
    requires Choices(states[a..b + 1], events[a..b]) >= n
    ensures exists k :: a <= k < b && Chooses(events[k], states[k + 1]) && states[k + 1].phase.idx == i
  {
    hide Step, Choices, Initial, Books, ThreadsOk, Settled;
    RunKeeps(states, events, a);
    TraceSlice(states, events, a, b);
    if forall k :: a <= k < b && Chooses(events[k], states[k + 1]) ==> states[k + 1].phase.idx != i {
      var ss, es := states[a..b + 1], events[a..b];
      forall k | 0 <= k < |ss| ensures |ss[k].threads| == n && ss[k].threads[i].Runnable() {
        assert ss[k] == states[a + k];
      }
      forall k | 0 <= k < |es| && Chooses(es[k], ss[k + 1]) ensures ss[k + 1].phase.idx != i {
        assert es[k] == events[a + k] && ss[k + 1] == states[a + k + 1];
      }
      BoundedWaiting(ss, es, i, n);
    }
  }
}
