/** The scheduler's invariant, and the theorems about every run. */
module SchedulerRuns {
  import opened Bytes
  import opened GuestMemory
  import opened Outcome
  import opened Scheduler
  import opened SchedulerSafety

  // ===== the invariant =====

  predicate WellPlaced(s: State) {
    && s.cur < |s.threads|
    && (s.phase.Running? ==> s.phase.idx < |s.threads| && s.threads[s.phase.idx].Runnable())
  }

  /** Never parked twice over, and not parked once gone. */
  predicate ThreadOk(t: Thread) {
    && !(t.blockedOn.Some? && t.waiting.Some?)
    && (t.exited ==> t.blockedOn.None? && t.waiting.None?)
  }

  predicate ThreadsOk(s: State) { forall i :: 0 <= i < |s.threads| ==> ThreadOk(s.threads[i]) }

  /** The main thread is the one process entry of the table. */
  predicate OneProcess(s: State) {
    && |s.threads| > 0 && s.threads[0].tid == 1
    && forall i :: 0 <= i < |s.threads| ==> (s.threads[i].isProcess <==> i == 0)
  }

  ghost predicate Numbered(s: State) {
    s.issued == Ids(2, |s.issued|) && s.nextTid == AsI32(2 + |s.issued|)
  }

  /** Every ended child is a zombie or delivered, as often as it ended. */
  ghost predicate Balanced(s: State) {
    && multiset(ZombiesEnded(s.ended)) == multiset(s.zombies) + multiset(ZombiesOf(s.delivered))
    && forall k :: 0 <= k < |s.delivered| ==>
      s.delivered[k].waiter < |s.threads| && Matches(s.delivered[k].want, s.delivered[k].zombie)
  }

  function Tids(threads: seq<Thread>): (r: seq<i32>)
    ensures |r| == |threads|
  {
    seq<i32>(|threads|, i requires 0 <= i < |threads| => threads[i].tid)
  }

  function EndedIds(ended: seq<Ended>): (r: seq<i32>)
    ensures |r| == |ended|
  {
    seq<i32>(|ended|, i requires 0 <= i < |ended| => ended[i].tid)
  }

  predicate Distinct(ids: seq<i32>) { forall i, j :: 0 <= i < j < |ids| ==> ids[i] != ids[j] }

  /** Thread and child ids: no two alike, and none that was not handed out. */
  predicate Separate(tids: seq<i32>, gone: seq<i32>, issued: seq<i32>) {
    && Distinct(tids) && Distinct(gone)
    && (forall i, j :: 0 <= i < |tids| && 0 <= j < |gone| ==> tids[i] != gone[j])
    && (forall i :: 0 <= i < |tids| ==> tids[i] == 1 || tids[i] in issued)
    && (forall i :: 0 <= i < |gone| ==> gone[i] in issued)
  }

  /** Fewer ids handed out than an `i32` can tell apart. */
  predicate Countable(s: State) { |s.issued| < U32 - 1 }

  predicate Named(s: State) {
    Countable(s) ==> Separate(Tids(s.threads), EndedIds(s.ended), s.issued)
  }

  ghost predicate Books(s: State) {
    OneProcess(s) && Numbered(s) && Balanced(s) && Named(s) && |s.threads| <= |s.issued| + 1
  }

  ghost predicate Inv(s: State) {
    WellPlaced(s) && ThreadsOk(s) && Books(s) && Settled(s.threads, s.zombies)
  }

  // ===== steps that leave the books alone =====

  predicate SameEntry(t: Thread, u: Thread) { u.tid == t.tid && u.isProcess == t.isProcess }

  predicate SameEntries(s: State, r: State) {
    && |r.threads| == |s.threads|
    && forall i :: 0 <= i < |s.threads| ==> SameEntry(s.threads[i], r.threads[i])
  }

  predicate SameBooks(s: State, r: State) {
    && SameEntries(s, r)
    && r.zombies == s.zombies && r.nextTid == s.nextTid
    && r.issued == s.issued && r.ended == s.ended && r.delivered == s.delivered
  }

  lemma SameTids(s: State, r: State)
    requires SameEntries(s, r)
    ensures Tids(r.threads) == Tids(s.threads)
  {
    forall i | 0 <= i < |s.threads| ensures Tids(r.threads)[i] == Tids(s.threads)[i] {
      assert SameEntry(s.threads[i], r.threads[i]);
    }
  }

  lemma SameBooksKeep(s: State, r: State)
    requires Books(s) && SameBooks(s, r)
    ensures Books(r)
  {
    hide Tids, EndedIds, Separate, ZombiesOf, ZombiesEnded, Ids;
    SameTids(s, r);
    assert SameEntry(s.threads[0], r.threads[0]);
    forall i | 0 <= i < |r.threads| ensures r.threads[i].isProcess <==> i == 0 {
      assert SameEntry(s.threads[i], r.threads[i]);
    }
  }

  /** Nobody starts waiting. */
  predicate NoNewWait(s: State, r: State) {
    && |r.threads| == |s.threads|
    && forall i :: 0 <= i < |s.threads| ==>
      r.threads[i].waiting.None? || r.threads[i].waiting == s.threads[i].waiting
  }

  lemma StillSettled(s: State, r: State)
    requires Settled(s.threads, s.zombies) && NoNewWait(s, r)
    requires multiset(r.zombies) <= multiset(s.zombies)
    ensures Settled(r.threads, r.zombies)
  {
    forall i, z | 0 <= i < |r.threads| && r.threads[i].waiting.Some? && z in r.zombies
      ensures !Matches(r.threads[i].waiting.value.want, z)
    {
      assert z in multiset(r.zombies) && z in multiset(s.zombies);
      assert r.threads[i].waiting == s.threads[i].waiting && z in s.zombies;
    }
  }

  // ===== reaping =====

  lemma ReapedBooks(s: State, r: State)
    requires Books(s) && Reaped(s, r)
    ensures Books(r)
  {
    hide Tids, EndedIds, Separate, ZombiesOf, ZombiesEnded, Ids;
    forall i | 0 <= i < |s.threads| ensures SameEntry(s.threads[i], r.threads[i]) {
      assert Served(s.threads[i], r.threads[i]);
    }
    SameTids(s, r);
    assert SameEntry(s.threads[0], r.threads[0]);
    forall k | 0 <= k < |r.delivered|
      ensures r.delivered[k].waiter < |r.threads| && Matches(r.delivered[k].want, r.delivered[k].zombie)
    {
      if k < |s.delivered| {
        assert s.delivered[k] == r.delivered[k];
      } else {
        assert Handed(s.threads, r.threads, r.delivered[k]);
      }
    }
  }

  lemma ReapedThreads(s: State, r: State)
    requires ThreadsOk(s) && Reaped(s, r)
    ensures ThreadsOk(r) && NoNewWait(s, r)
  {
    hide ZombiesOf;
    forall i | 0 <= i < |r.threads|
      ensures ThreadOk(r.threads[i])
      ensures r.threads[i].waiting.None? || r.threads[i].waiting == s.threads[i].waiting
    {
      assert ThreadOk(s.threads[i]) && Served(s.threads[i], r.threads[i]);
    }
  }

  // ===== one event =====

  /** A step that only changes how threads stand, never whether one starts waiting. */
  lemma QuietStep(s: State, r: State)
    requires Inv(s) && SameBooks(s, r) && NoNewWait(s, r) && WellPlaced(r) && ThreadsOk(r)
    ensures Inv(r)
  {
    hide Books, SameBooks, Settled;
    assert r.zombies == s.zombies by { SameZombies(s, r); }
    SameBooksKeep(s, r);
    StillSettled(s, r);
  }

  lemma SameZombies(s: State, r: State)
    requires SameBooks(s, r)
    ensures r.zombies == s.zombies
  {}

  /** Replacing the running thread by one that is in order and not waiting. */
  lemma TouchRunning(s: State, i: nat, t: Thread, r: State)
    requires Inv(s) && i < |s.threads| && s.phase == Running(i)
    requires SameEntry(s.threads[i], t) && ThreadOk(t) && t.waiting.None?
    requires r == s.(threads := s.threads[i := t], memory := r.memory, exitCode := r.exitCode, phase := r.phase)
    requires r.phase == s.phase ==> t.Runnable()
    requires r.phase != s.phase ==> !r.phase.Running?
    ensures Inv(r)
  {
    hide Books, Settled;
    QuietStep(s, r);
  }

  lemma ChooseKeeps(s: State, overBudget: bool)
    requires Inv(s) && s.phase.Choosing?
    ensures Inv(ChooseNext(s, overBudget))
  {
    hide Books, Settled, PickFrom;
    QuietStep(s, ChooseNext(s, overBudget));
  }

  lemma WokenThreads(s: State, addr: u32, n: int)
    requires ThreadsOk(s)
    ensures var r := s.(threads := Woken(s.threads, addr, n));
      SameEntries(s, r) && NoNewWait(s, r) && ThreadsOk(r)
    ensures forall i :: 0 <= i < |s.threads| && s.threads[i].blockedOn.None? ==>
      Woken(s.threads, addr, n)[i] == s.threads[i]
  {
    hide Waiters;
    var after := Woken(s.threads, addr, n);
    forall i | 0 <= i < |s.threads|
      ensures SameEntry(s.threads[i], after[i]) && after[i].waiting == s.threads[i].waiting && ThreadOk(after[i])
    {
      assert ThreadOk(s.threads[i]);
    }
  }

  lemma FutexKeeps(s: State, i: nat, uaddr: u32, op: u32, val: u32)
    requires Inv(s) && i < |s.threads| && s.phase == Running(i)
    ensures Inv(ServeFutex(s, i, uaddr, op, val))
  {
    hide Books, Settled, Woken, Load32;
    var r := ServeFutex(s, i, uaddr, op, val);
    if op % 128 == 1 || op % 128 == 10 {
      var n := AsI32(val);
      WokenThreads(s, uaddr, n);
      var m := s.(threads := Woken(s.threads, uaddr, n));
      QuietStep(s, m);
      TouchRunning(m, i, r.threads[i], r);
    } else {
      TouchRunning(s, i, r.threads[i], r);
    }
  }

  /** The main thread's end is the end of the run; a sibling's leaves no zombie. */
  lemma ConcludeSimple(s: State, i: nat, code: i32)
    requires OneProcess(s) && i < |s.threads|
    ensures var r := Conclude(s, i, code);
      r == s.(exitCode := r.exitCode, phase := Choosing)
  {
    hide Bury, AllExited;
  }

  lemma ExitKeeps(s: State, i: nat, a0: u64)
    requires Inv(s) && i < |s.threads| && s.phase == Running(i)
    ensures Inv(ServeExit(s, i, a0))
  {
    hide Settled, Woken, Store32, Conclude, Numbered, Balanced, Named;
    var m1 := MarkExited(s, i);
    var m2 := ReleaseJoiners(m1, s.threads[i].clearChildTid);
    var m3 := m1.(phase := Choosing);
    TouchRunning(s, i, m1.threads[i], m3);
    WokenThreads(m3, s.threads[i].clearChildTid, I32_MAX);
    QuietStep(m3, m2.(phase := Choosing));
    ConcludeSimple(m2, i, AsI32(a0));
    var r := ServeExit(s, i, a0);
    QuietStep(m2.(phase := Choosing), r);
  }

  lemma ExecveKeeps(s: State, i: nat, outcome: Option<i32>)
    requires Inv(s) && i < |s.threads| && s.phase == Running(i)
    ensures Inv(ServeExecve(s, i, outcome))
  {
    hide Settled, Conclude, Numbered, Balanced, Named;
    match outcome
    case None =>
      TouchRunning(s, i, SetRax(s, i, -2).threads[i], SetRax(s, i, -2));
    case Some(code) =>
      var m := MarkExited(s, i);
      var m1 := m.(phase := Choosing);
      TouchRunning(s, i, m.threads[i], m1);
      ConcludeSimple(m, i, code);
      QuietStep(m1, ServeExecve(s, i, outcome));
  }

  /** Parking in `wait4` is safe because nothing on the list matched. */
  lemma ParkKeeps(s: State, i: nat, want: i32, ptr: u32)
    requires Inv(s) && i < |s.threads| && s.phase == Running(i)
    requires !ReapOne(StartWait(s, i, want, ptr), i).1
    ensures Inv(StartWait(s, i, want, ptr).(phase := Choosing))
  {
    hide Books, Store32;
    var m := StartWait(s, i, want, ptr);
    var r := m.(phase := Choosing);
    ReapOneReaps(m, i);
    SameBooksKeep(s, r);
    forall j, z | 0 <= j < |r.threads| && r.threads[j].waiting.Some? && z in r.zombies
      ensures !Matches(r.threads[j].waiting.value.want, z)
    {
      if j != i {
        assert r.threads[j] == s.threads[j];
      }
    }
    forall j | 0 <= j < |r.threads| ensures ThreadOk(r.threads[j]) {
      assert ThreadOk(s.threads[j]);
    }
  }

  lemma ReapedWaitKeeps(s: State, i: nat, want: i32, ptr: u32)
    requires Inv(s) && i < |s.threads| && s.phase == Running(i)
    requires ReapOne(StartWait(s, i, want, ptr), i).1
    ensures Inv(ReapOne(StartWait(s, i, want, ptr), i).0)
  {
    hide Books, Settled, ReapOne, Numbered, Balanced, Named;
    var m := StartWait(s, i, want, ptr);
    var r := ReapOne(m, i).0;
    ReapOneReaps(m, i);
    SameBooksKeep(s, m);
    ReapedBooks(m, r);
    forall j | 0 <= j < |m.threads| ensures ThreadOk(m.threads[j]) {
      assert ThreadOk(s.threads[j]);
    }
    ReapedThreads(m, r);
    StillSettled(s, r) by { ReapedZombies(m, r); }
    assert Served(m.threads[i], r.threads[i]) by { ReapedZombies(m, r); }
  }

  lemma ReapedZombies(s: State, r: State)
    requires Reaped(s, r)
    ensures multiset(r.zombies) <= multiset(s.zombies)
    ensures |r.threads| == |s.threads| && r.phase == s.phase && r.cur == s.cur
    ensures forall i :: 0 <= i < |s.threads| ==> Served(s.threads[i], r.threads[i])
  {
    hide ZombiesOf;
  }

  lemma Wait4Keeps(s: State, i: nat, want: i32, ptr: u32, options: u32)
    requires Inv(s) && i < |s.threads| && s.phase == Running(i)
    ensures Inv(ServeWait4(s, i, want, ptr, options))
  {
    hide Books, Settled, ReapOne, HasChild;
    var m := StartWait(s, i, want, ptr);
    var r := ServeWait4(s, i, want, ptr, options);
    if ReapOne(m, i).1 {
      ReapedWaitKeeps(s, i, want, ptr);
    } else if options % 2 == 1 || !HasChild(m.threads, i) {
      TouchRunning(s, i, r.threads[i], r);
    } else {
      ParkKeeps(s, i, want, ptr);
    }
  }

  // ===== new ids =====

  lemma NewId(s: State)
    requires Numbered(s) && |s.issued| < U32 - 2
    ensures s.nextTid !in s.issued && s.nextTid != 1
  {
    var n := |s.issued|;
    forall j | 0 <= j < n ensures s.issued[j] != s.nextTid {
      IdsDistinct(2, j, n);
    }
    IdsDistinct(1, 0, n + 1);
  }

  lemma SeparateMore(tids: seq<i32>, gone: seq<i32>, issued: seq<i32>, more: seq<i32>)
    requires Separate(tids, gone, issued)
    ensures Separate(tids, gone, issued + more)
  {}

  lemma SeparateSpawn(tids: seq<i32>, gone: seq<i32>, issued: seq<i32>, tid: i32)
    requires Separate(tids, gone, issued) && tid !in issued && tid != 1
    ensures Separate(tids + [tid], gone, issued + [tid])
    ensures Separate(tids, gone + [tid], issued + [tid])
  {}

  lemma NumberedMore(s: State, r: State, k: nat)
    requires Numbered(s) && r.issued == s.issued + Ids(s.nextTid, k) && r.nextTid == AsI32(s.nextTid + k)
    ensures Numbered(r)
  {
    hide Ids;
    var n := |s.issued|;
    IdsAppend(2, n, k);
    WrapPlus(2 + n, k);
  }

  lemma IssueNumbers(s: State, i: nat, flags: u64, ptid: u32, ctid: u32)
    requires Numbered(s) && i < |s.threads|
    ensures Numbered(Issue(s, i, flags, ptid, ctid))
  {
    hide SetTids, Numbered;
    IdsNone(s.nextTid);
    assert Ids(s.nextTid, 1) == [s.nextTid];
    NumberedMore(s, Issue(s, i, flags, ptid, ctid), 1);
  }

  lemma ForkNumbers(s: State, child: ChildRun)
    requires Numbered(s)
    ensures var c := RunChild(child, FreshChild(s.nextTid, s.exitCode)).1;
      Numbered(s.(nextTid := c.nextPid, exitCode := c.exitCode, issued := s.issued + c.issued))
  {
    hide RunChild, Ids, Numbered;
    var start := FreshChild(s.nextTid, s.exitCode);
    var c := RunChild(child, start).1;
    ChildIds(child, start);
    NumberedMore(s, s.(nextTid := c.nextPid, exitCode := c.exitCode, issued := s.issued + c.issued), |c.issued|);
  }

  lemma SpawnKeeps(s: State, i: nat, flags: u64, ptid: u32, ctid: u32, cct: u32)
    requires Inv(s) && i < |s.threads| && s.phase == Running(i)
    ensures Inv(Spawn(Issue(s, i, flags, ptid, ctid), s.nextTid, cct))
  {
    hide Numbered, SetTids, Separate, Tids, EndedIds, ZombiesOf, ZombiesEnded;
    var m := Issue(s, i, flags, ptid, ctid);
    var r := Spawn(m, s.nextTid, cct);
    IssueNumbers(s, i, flags, ptid, ctid);
    assert Numbered(r) by { SameNumbers(m, r); }
    assert SameEntries(s, m);
    SameTids(s, m);
    assert Tids(r.threads) == Tids(s.threads) + [s.nextTid] by { TidsSnoc(m.threads, r.threads[|m.threads|]); }
    if Countable(r) {
      NewId(s);
      SeparateSpawn(Tids(s.threads), EndedIds(s.ended), s.issued, s.nextTid);
    }
    SpawnThreads(s, m, r);
  }

  lemma SameNumbers(s: State, r: State)
    requires Numbered(s) && r.issued == s.issued && r.nextTid == s.nextTid
    ensures Numbered(r)
  {}

  lemma TidsSnoc(threads: seq<Thread>, t: Thread)
    ensures Tids(threads + [t]) == Tids(threads) + [t.tid]
  {}

  lemma SpawnThreads(s: State, m: State, r: State)
    requires ThreadsOk(s) && Settled(s.threads, s.zombies) && r.zombies == s.zombies
    requires |m.threads| == |s.threads|
    requires forall j :: 0 <= j < |s.threads| ==> m.threads[j] == s.threads[j].(rax := m.threads[j].rax)
    requires |r.threads| == |m.threads| + 1 && r.threads[..|m.threads|] == m.threads
    requires r.threads[|m.threads|].Runnable()
    ensures ThreadsOk(r) && Settled(r.threads, r.zombies)
  {
    forall j | 0 <= j < |r.threads| ensures ThreadOk(r.threads[j]) {
      if j < |s.threads| {
        assert r.threads[j] == r.threads[..|m.threads|][j];
        assert ThreadOk(s.threads[j]);
      }
    }
    forall j, z | 0 <= j < |r.threads| && r.threads[j].waiting.Some? && z in r.zombies
      ensures !Matches(r.threads[j].waiting.value.want, z)
    {
      if j < |s.threads| {
        assert r.threads[j] == r.threads[..|m.threads|][j];
      }
    }
  }

  lemma EndedIdsSnoc(ended: seq<Ended>, e: Ended)
    ensures EndedIds(ended + [e]) == EndedIds(ended) + [e.tid]
  {}

  /** A zombie is added: everything but `Settled`, which the re-check restores. */
  lemma BurialBooks(s: State, m: State, r: State, code: i32)
    requires Books(s) && Numbered(m) && SameEntries(s, m)
    requires m.zombies == s.zombies && m.ended == s.ended && m.delivered == s.delivered
    requires s.issued + [s.nextTid] <= m.issued
    requires r == m.(zombies := m.zombies + [Ended(s.nextTid, code).AsZombie()], ended := m.ended + [Ended(s.nextTid, code)])
    ensures Books(r)
  {
    hide Numbered, Separate, Tids, EndedIds, ZombiesOf, ZombiesEnded, Ended.AsZombie;
    var e := Ended(s.nextTid, code);
    SameNumbers(m, r);
    SameTids(s, r);
    assert SameEntry(s.threads[0], r.threads[0]);
    forall i | 0 <= i < |r.threads| ensures r.threads[i].isProcess <==> i == 0 {
      assert SameEntry(s.threads[i], r.threads[i]);
    }
    ZombiesEndedSnoc(s.ended, e);
    EndedIdsSnoc(s.ended, e);
    if Countable(r) {
      NewId(s);
      SeparateSpawn(Tids(s.threads), EndedIds(s.ended), s.issued, s.nextTid);
      var more := m.issued[|s.issued| + 1..];
      assert m.issued == (s.issued + [s.nextTid]) + more;
      SeparateMore(Tids(s.threads), EndedIds(s.ended) + [s.nextTid], s.issued + [s.nextTid], more);
    }
  }

  lemma ForkKeeps(s: State, i: nat, flags: u64, ptid: u32, ctid: u32, child: ChildRun)
    requires Inv(s) && i < |s.threads| && s.phase == Running(i)
    ensures Inv(ForkChild(Issue(s, i, flags, ptid, ctid), s.nextTid, child))
  {
    hide Books, Settled, Numbered, Balanced, Named, SetTids, RunChild, ReapWaiters;
    assert Numbered(s) && OneProcess(s) by { BooksParts(s); }
    var m := Issue(s, i, flags, ptid, ctid);
    IssueNumbers(s, i, flags, ptid, ctid);
    ForkNumbers(m, child);
    var (code, c) := RunChild(child, FreshChild(m.nextTid, m.exitCode));
    var m1 := m.(nextTid := c.nextPid, exitCode := c.exitCode, issued := m.issued + c.issued);
    var m2 := m1.(zombies := m1.zombies + [Ended(s.nextTid, code).AsZombie()], ended := m1.ended + [Ended(s.nextTid, code)]);
    BurialBooks(s, m1, m2, code);
    assert ThreadsOk(m2) by {
      forall j | 0 <= j < |m2.threads| ensures ThreadOk(m2.threads[j]) { assert ThreadOk(s.threads[j]); }
    }
    var w := ReapWaiters(m2);
    ReapWaitersSettles(m2);
    ReapedBooks(m2, w);
    ReapedThreads(m2, w);
    ReapedZombies(m2, w);
    var r := w.(phase := Choosing);
    SameBooksKeep(w, r);
  }

  lemma BooksParts(s: State)
    requires Books(s)
    ensures Numbered(s) && OneProcess(s)
  {}
}
