/** The run loop as the source writes it: an object whose fields are updated step by
    step, each operation proved against its function in `Scheduler`. */
module SchedulerProgram {
  import opened Bytes
  import opened GuestMemory
  import opened Outcome
  import S = Scheduler
  import Safety = SchedulerSafety

  class RunLoop {
    var threads: seq<S.Thread>
    var zombies: seq<S.Zombie>
    var memory: Memory
    var cur: nat
    var nextTid: i32
    var exitCode: Option<i32>
    var phase: S.Phase
    ghost var issued: seq<i32>
    ghost var ended: seq<S.Ended>
    ghost var delivered: seq<S.Delivery>

    ghost function State(): S.State
      reads this
    {
      S.State(threads, zombies, memory, cur, nextTid, exitCode, phase, issued, ended, delivered)
    }

    constructor (memory: Memory, rax: u64)
      ensures State() == S.Initial(memory, rax)
    {
      threads := [S.Thread(1, None, 0, false, true, None, rax)];
      zombies := [];
      this.memory := memory;
      cur := 0;
      nextTid := 2;
      exitCode := None;
      phase := S.Choosing;
      issued := [];
      ended := [];
      delivered := [];
    }

    /** `wake_futex`: exactly the first `min(max(n, 0), waiters)` waiters, no one else. */
    method WakeFutex(addr: u32, n: i32) returns (woke: int)
      modifies `threads
      ensures threads == S.Woken(old(threads), addr, n)
      ensures woke == S.WokenCount(old(threads), addr, n)
    {
      hide S.Waiters;
      ghost var before := threads;
      woke := 0;
      var i := 0;
      assert S.Waiters(before[..0], addr) == 0 by { Empty(before, addr); }
      while i < |threads| && woke < n
        invariant i <= |threads| == |before|
        invariant woke == S.WokenCount(before[..i], addr, n)
        invariant forall j :: 0 <= j < i ==> threads[j] == S.Woken(before, addr, n)[j]
        invariant forall j :: i <= j < |before| ==> threads[j] == before[j]
      {
        WaitersSnoc(before, addr, i);
        if threads[i].blockedOn == Some(addr) {
          threads := threads[i := threads[i].(blockedOn := None)];
          woke := woke + 1;
        }
        i := i + 1;
      }
      if i == |before| {
        assert before[..i] == before;
      } else {
        RestUntouched(before, addr, n, i);
      }
    }

    /** `reap_one`. */
    method ReapOne(w: nat) returns (reaped: bool)
      requires w < |threads|
      modifies this
      ensures (State(), reaped) == S.ReapOne(old(State()), w)
    {
      var t := threads[w];
      if t.waiting.None? {
        return false;
      }
      var want, ptr := t.waiting.value.want, t.waiting.value.statusPtr;
      var found := S.FirstMatch(zombies, want);
      if found.None? {
        return false;
      }
      var pos := found.value;
      var z := zombies[pos];
      zombies := zombies[..pos] + zombies[pos + 1..];
      if ptr != 0 {
        memory := Store32(memory, ptr, S.AsU32(z.status)).0;
      }
      threads := threads[w := t.(rax := S.AsU64(z.tid), waiting := None)];
      delivered := delivered + [S.Delivery(z, w, want, ptr)];
      reaped := true;
    }

    /** `reap_waiters`; it ends because every further sweep has fewer zombies. */
    method ReapWaiters()
      modifies this
      ensures State() == S.ReapWaiters(old(State()))
      ensures Safety.Settled(threads, zombies)
    {
      hide S.ReapOne, Safety.Settled, Safety.Reaped;
      ghost var before := State();
      var progressed := true;
      while progressed
        invariant progressed ==> S.ReapWaiters(State()) == S.ReapWaiters(before)
        invariant !progressed ==> State() == S.ReapWaiters(before)
        decreases progressed, |zombies|
      {
        ghost var start := State();
        progressed := false;
        for i := 0 to |threads|
          invariant |threads| == |start.threads|
          invariant S.Sweep(start, 0) == (S.Sweep(State(), i).0, progressed || S.Sweep(State(), i).1)
          invariant progressed ==> |zombies| < |start.zombies|
          invariant !progressed ==> State() == start
        {
          var reaped := ReapOne(i);
          if reaped {
            progressed := true;
          }
        }
      }
      Safety.ReapWaitersSettles(before);
    }

    /** The round-robin scan. */
    method PickNext() returns (pick: Option<nat>)
      ensures pick == S.Pick(threads, cur)
    {
      var n := |threads|;
      for off := 0 to n
        invariant S.Pick(threads, cur) == S.PickFrom(threads, cur, off)
      {
        var i := (cur + off) % n;
        if threads[i].Runnable() {
          return Some(i);
        }
      }
      pick := None;
    }

    /** The head of the outer loop. */
    method ChooseNext(overBudget: bool)
      modifies this
      ensures State() == S.ChooseNext(old(State()), overBudget)
    {
      hide S.Pick;
      if exitCode.Some? {
        phase := S.Done(exitCode);
        return;
      }
      if overBudget {
        phase := S.Done(Some(-1));
        return;
      }
      var pick := PickNext();
      if pick.None? {
        phase := S.Done(Some(0));
        return;
      }
      cur := (pick.value + 1) % |threads|;
      phase := S.Running(pick.value);
    }

    method Bury(tid: i32, code: i32)
      modifies this
      ensures State() == S.Bury(old(State()), tid, code)
    {
      hide S.ReapWaiters;
      zombies := zombies + [S.Zombie(tid, S.ExitStatus(code))];
      ended := ended + [S.Ended(tid, code)];
      ReapWaiters();
    }

    method Conclude(i: nat, code: i32)
      requires i < |threads|
      modifies this
      ensures State() == S.Conclude(old(State()), i, code)
    {
      hide S.Bury;
      if threads[i].tid == 1 {
        exitCode := Some(code);
      } else if threads[i].isProcess {
        Bury(threads[i].tid, code);
      }
      if S.AllExited(threads) && exitCode.None? {
        exitCode := Some(0);
      }
      phase := S.Choosing;
    }

    /** The `Exit | ExitGroup` arm. */
    method ServeExit(i: nat, a0: u64)
      requires i < |threads|
      modifies this
      ensures State() == S.ServeExit(old(State()), i, a0)
    {
      hide S.Conclude, S.Woken, Store32;
      threads := threads[i := threads[i].(exited := true)];
      var c := threads[i].clearChildTid;
      if c != 0 {
        memory := Store32(memory, c, 0).0;
        var _ := WakeFutex(c, S.I32_MAX);
      }
      Conclude(i, S.AsI32(a0));
    }

    /** Hand out the next id to thread `i` and the words it asked for. */
    method Issue(i: nat, flags: u64, ptid: u32, ctid: u32) returns (tid: i32)
      requires i < |threads|
      modifies this
      ensures State() == S.Issue(old(State()), i, flags, ptid, ctid) && tid == old(nextTid)
    {
      hide Store32;
      tid := nextTid;
      nextTid := S.AsI32(nextTid + 1);
      issued := issued + [tid];
      threads := threads[i := threads[i].(rax := S.AsU64(tid))];
      if S.Bit(flags, S.CLONE_PARENT_SETTID) && ptid != 0 {
        memory := Store32(memory, ptid, S.AsU32(tid)).0;
      }
      if S.Bit(flags, S.CLONE_CHILD_SETTID) && ctid != 0 {
        memory := Store32(memory, ctid, S.AsU32(tid)).0;
      }
    }

    /** The `Clone | Fork | Vfork` arm. */
    method ServeClone(i: nat, flags: u64, ptid: u32, ctid: u32, child: S.ChildRun)
      requires i < |threads|
      modifies this
      ensures State() == S.ServeClone(old(State()), i, flags, ptid, ctid, child)
    {
      hide S.Bury, S.RunChild, S.Issue;
      var tid := Issue(i, flags, ptid, ctid);
      if S.Bit(flags, S.CLONE_THREAD) {
        var c := if S.Bit(flags, S.CLONE_CHILD_CLEARTID) then ctid else 0;
        threads := threads + [S.Thread(tid, None, c, false, false, None, 0)];
      } else {
        var code, k := RunAmd64Child(child, S.FreshChild(nextTid, exitCode));
        nextTid := k.nextPid;
        exitCode := k.exitCode;
        issued := issued + k.issued;
        Bury(tid, code);
      }
      phase := S.Choosing;
    }

    /** The `Execve` arm. */
    method ServeExecve(i: nat, outcome: Option<i32>)
      requires i < |threads|
      modifies this
      ensures State() == S.ServeExecve(old(State()), i, outcome)
    {
      hide S.Conclude;
      match outcome
      case Some(code) =>
        threads := threads[i := threads[i].(exited := true)];
        Conclude(i, code);
      case None =>
        threads := threads[i := threads[i].(rax := S.AsU64(-2))];
    }

    /** The `Wait4` arm. */
    method ServeWait4(i: nat, want: i32, ptr: u32, options: u32)
      requires i < |threads|
      modifies this
      ensures State() == S.ServeWait4(old(State()), i, want, ptr, options)
    {
      hide S.ReapOne, S.HasChild;
      threads := threads[i := threads[i].(waiting := Some(S.Wait(want, ptr)))];
      ghost var parked := State();
      var reaped := ReapOne(i);
      if !reaped {
        Safety.ReapOneElsewhere(parked, i);
        if options % 2 == 1 {
          threads := threads[i := threads[i].(waiting := None, rax := S.AsU64(0))];
        } else if !S.HasChild(threads, i) {
          threads := threads[i := threads[i].(waiting := None, rax := S.AsU64(-10))];
        } else {
          phase := S.Choosing;
        }
      }
    }

    /** The `Futex` arm. */
    method ServeFutex(i: nat, uaddr: u32, op: u32, val: u32)
      requires i < |threads|
      modifies this
      ensures State() == S.ServeFutex(old(State()), i, uaddr, op, val)
    {
      hide S.Woken, S.WokenCount, Load32;
      var cmd := op % 128;
      if cmd == 0 || cmd == 9 {
        if Load32(memory, uaddr) == Some(val) {
          threads := threads[i := threads[i].(blockedOn := Some(uaddr), rax := S.AsU64(0))];
          phase := S.Choosing;
        } else {
          threads := threads[i := threads[i].(rax := S.AsU64(-11))];
        }
      } else if cmd == 1 || cmd == 10 {
        var woke := WakeFutex(uaddr, S.AsI32(val));
        threads := threads[i := threads[i].(rax := S.AsU64(woke))];
      } else {
        threads := threads[i := threads[i].(rax := S.AsU64(0))];
      }
    }

    /** One guest step of thread `i`. */
    method Serve(i: nat, e: S.Event)
      requires i < |threads| && !e.Choose?
      modifies this
      ensures State() == S.Serve(old(State()), i, e)
    {
      hide S.ServeExit, S.ServeClone, S.ServeExecve, S.ServeWait4, S.ServeFutex;
      match e
      case Continue(rax, m) =>
        threads, memory := threads[i := threads[i].(rax := S.AsU64(rax))], m;
      case QuantumEnd =>
        phase := S.Choosing;
      case Halt =>
        threads, phase := threads[i := threads[i].(exited := true)], S.Choosing;
      case Trap =>
        phase := S.Done(None);
      case Exit(a0) =>
        ServeExit(i, a0);
      case Clone(flags, a2, a3, child) =>
        ServeClone(i, flags, S.AsU32(a2), S.AsU32(a3), child);
      case Execve(outcome) =>
        ServeExecve(i, outcome);
      case Wait4(a0, a1, a2) =>
        ServeWait4(i, S.AsI32(a0), S.AsU32(a1), S.AsU32(a2));
      case Futex(a0, a1, a2) =>
        ServeFutex(i, S.AsU32(a0), S.AsU32(a1), S.AsU32(a2));
      case SchedYield =>
        threads, phase := threads[i := threads[i].(rax := S.AsU64(0))], S.Choosing;
      case Other(rax, m, exit) =>
        threads, memory := threads[i := threads[i].(rax := S.AsU64(rax))], m;
        if exit.Some? {
          exitCode := exit;
        }
        if exitCode.Some? {
          phase := S.Choosing;
        }
    }

    /** `run_linux_amd64`, with the guest's behaviour given. */
    method RunLinuxAmd64(events: seq<S.Event>)
      modifies this
      ensures State() == S.Drive(old(State()), events)
    {
      hide S.Serve, S.ChooseNext;
      ghost var before := State();
      var k := 0;
      assert events[0..] == events;
      while k < |events|
        invariant k <= |events|
        invariant S.Drive(before, events) == S.Drive(State(), events[k..])
      {
        var e := events[k];
        assert events[k..][0] == e && events[k..][1..] == events[k + 1..];
        match phase {
          case Done(_) =>
            return;
          case Choosing =>
            if !e.Choose? {
              return;
            }
            ChooseNext(e.overBudget);
          case Running(i) =>
            if e.Choose? || i >= |threads| {
              return;
            }
            Serve(i, e);
        }
        k := k + 1;
      }
    }
  }

  /** `run_amd64_child`. */
  method RunAmd64Child(run: S.ChildRun, start: S.ChildState) returns (code: i32, c: S.ChildState)
    ensures (code, c) == S.RunChild(run, start)
    decreases run
  {
    hide S.FirstMatch;
    c := start;
    var rest := run;
    while rest.Then?
      invariant S.RunChild(run, start) == S.RunChild(rest, c)
      invariant rest == run || rest < run
      decreases rest
    {
      var e := rest.event;
      match e {
        case Halted =>
          return 0, c;
        case Exited(a0) =>
          return S.AsI32(a0), c;
        case Faulted =>
          return -1, c;
        case Execed(outcome) =>
          if outcome.Some? {
            return outcome.value, c;
          }
        case Forked(child) =>
          var inner, left := RunAmd64Child(child, S.FreshChild(S.AsI32(c.nextPid + 1), c.exitCode));
          c := S.ChildForked(c, inner, left);
        case Waited(a0) =>
          c := S.ChildWait(c, S.AsI32(a0));
        case Dispatched(exit) =>
          if exit.Some? {
            c := c.(exitCode := exit);
          }
          if c.exitCode.Some? {
            return c.exitCode.value, c;
          }
        case Proceeded =>
        case ClonedThread =>
      }
      rest := rest.rest;
    }
    code := -1;
  }

  lemma Empty(threads: seq<S.Thread>, addr: u32)
    ensures S.Waiters(threads[..0], addr) == 0
  {}

  lemma WaitersSnoc(threads: seq<S.Thread>, addr: u32, i: nat)
    requires i < |threads|
    ensures S.Waiters(threads[..i + 1], addr) ==
      S.Waiters(threads[..i], addr) + if threads[i].blockedOn == Some(addr) then 1 else 0
  {
    assert threads[..i + 1][..i] == threads[..i];
  }

  /** Once `n` are awake the rest of the list stays as it is. */
  lemma RestUntouched(threads: seq<S.Thread>, addr: u32, n: int, i: nat)
    requires i <= |threads| && S.WokenCount(threads[..i], addr, n) >= n
    ensures S.WokenCount(threads, addr, n) == S.WokenCount(threads[..i], addr, n)
    ensures forall j :: i <= j < |threads| ==> S.Woken(threads, addr, n)[j] == threads[j]
  {
    hide S.Waiters;
    Safety.WaitersMonotone(threads, addr, i);
    forall j | i <= j < |threads| ensures !S.AmongFirst(threads, addr, n, j) {
      Safety.WaitersMonotone(threads[..j], addr, i);
      assert threads[..j][..i] == threads[..i];
    }
  }
}
