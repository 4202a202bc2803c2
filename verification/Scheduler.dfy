/** The amd64 Linux run loop: a round-robin scheduler over guest threads with futexes,
    `clone`, synchronous `fork` children, zombies and `wait4`. One instruction of a guest
    CPU is an event; everything the loop itself does is a function of the state. */
module Scheduler {
  import opened Bytes
  import opened GuestMemory
  import opened Outcome

  const I32_MAX: i32 := 0x7fff_ffff

  function AsU32(x: int): u32 { x % U32 }

  function AsI32(x: int): i32 {
    var w := x % U32;
    if w <= I32_MAX then w else w - U32
  }

  function AsU64(x: int): u64 { x % U64 }

  predicate Bit(flags: u64, weight: nat)
    requires weight > 0
  {
    (flags / weight) % 2 == 1
  }

  const CLONE_THREAD: nat := 0x1_0000
  const CLONE_PARENT_SETTID: nat := 0x10_0000
  const CLONE_CHILD_CLEARTID: nat := 0x20_0000
  const CLONE_CHILD_SETTID: nat := 0x100_0000

  /** A `wait4` a thread is parked in; `want == -1` waits for any child. */
  datatype Wait = Wait(want: i32, statusPtr: u32)

  /** `AmdThread`, with the one register the scheduler sets. */
  datatype Thread = Thread(tid: i32, blockedOn: Option<u32>, clearChildTid: u32, exited: bool,
                           isProcess: bool, waiting: Option<Wait>, rax: u64) {
    predicate Runnable() { !exited && blockedOn.None? && waiting.None? }
  }

  datatype Zombie = Zombie(tid: i32, status: i32)

  /** History: a child process that finished with `code`. */
  datatype Ended = Ended(tid: i32, code: i32) {
    function AsZombie(): Zombie { Zombie(tid, ExitStatus(code)) }
  }

  /** History: a zombie handed to the `wait4` of the thread at index `waiter`. */
  datatype Delivery = Delivery(zombie: Zombie, waiter: nat, want: i32, statusPtr: u32)

  datatype Phase = Choosing | Running(idx: nat) | Done(result: Option<i32>)

  /** `issued`, `ended` and `delivered` are history; the rest is the loop's own state. */
  datatype State = State(threads: seq<Thread>, zombies: seq<Zombie>, memory: Memory, cur: nat, nextTid: i32,
                         exitCode: Option<i32>, phase: Phase,
                         issued: seq<i32>, ended: seq<Ended>, delivered: seq<Delivery>)

  /** `(code & 0xff) << 8`. */
  function ExitStatus(code: i32): i32 { (code % 256) * 256 }

  // ===== futex wake =====

  /** How many of the threads are parked on `addr`. */
  function Waiters(threads: seq<Thread>, addr: u32): nat {
    if threads == [] then 0
    else
      var n := |threads| - 1;
      Waiters(threads[..n], addr) + if threads[n].blockedOn == Some(addr) then 1 else 0
  }

  /** The thread at `i` is one of the first `n` parked on `addr`. */
  predicate AmongFirst(threads: seq<Thread>, addr: u32, n: int, i: nat)
    requires i < |threads|
  {
    threads[i].blockedOn == Some(addr) && Waiters(threads[..i], addr) < n
  }

  /** The first `n` waiters released, everyone else as before. */
  function Woken(threads: seq<Thread>, addr: u32, n: int): (r: seq<Thread>)
    ensures |r| == |threads|
  {
    seq(|threads|, i requires 0 <= i < |threads| =>
      if AmongFirst(threads, addr, n, i) then threads[i].(blockedOn := None) else threads[i])
  }

  /** `min(max(n, 0), waiters)`. */
  function WokenCount(threads: seq<Thread>, addr: u32, n: int): nat {
    var all := Waiters(threads, addr);
    if n <= 0 then 0 else if n < all then n else all
  }

  // ===== wait4 =====

  predicate Matches(want: i32, z: Zombie) { want == -1 || want == z.tid }

  function FirstMatch(zombies: seq<Zombie>, want: i32): (r: Option<nat>)
    ensures r.Some? ==> r.value < |zombies| && Matches(want, zombies[r.value])
    ensures r.None? ==> forall z :: z in zombies ==> !Matches(want, z)
    ensures r.Some? ==> forall k :: 0 <= k < r.value ==> !Matches(want, zombies[k])
  {
    if zombies == [] then None
    else if Matches(want, zombies[0]) then Some(0)
    else
      var r :- FirstMatch(zombies[1..], want);
      Some(r + 1)
  }

  /** The zombie at `pos` handed to the thread at `w`, which waits for it. */
  function HandOver(s: State, w: nat, pos: nat): (r: State)
    requires w < |s.threads| && s.threads[w].waiting.Some? && pos < |s.zombies|
    ensures |r.threads| == |s.threads| && |r.zombies| == |s.zombies| - 1
  {
    var t, z := s.threads[w], s.zombies[pos];
    var want, ptr := t.waiting.value.want, t.waiting.value.statusPtr;
    s.(zombies := s.zombies[..pos] + s.zombies[pos + 1..],
       memory := if ptr != 0 then Store32(s.memory, ptr, AsU32(z.status)).0 else s.memory,
       threads := s.threads[w := t.(rax := AsU64(z.tid), waiting := None)],
       delivered := s.delivered + [Delivery(z, w, want, ptr)])
  }

  /** `reap_one`: the new state, and whether a zombie was handed over. */
  function ReapOne(s: State, w: nat): (r: (State, bool))
    requires w < |s.threads|
    ensures |r.0.threads| == |s.threads|
    ensures r.1 ==> |r.0.zombies| == |s.zombies| - 1
    ensures !r.1 ==> r.0 == s
  {
    var t := s.threads[w];
    if t.waiting.None? then (s, false)
    else
      match FirstMatch(s.zombies, t.waiting.value.want)
      case None => (s, false)
      case Some(pos) => (HandOver(s, w, pos), true)
  }

  /** One sweep of `reap_waiters` over the threads from `i` on. */
  function Sweep(s: State, i: nat): (r: (State, bool))
    ensures |r.0.threads| == |s.threads| && |r.0.zombies| <= |s.zombies|
    ensures r.1 ==> |r.0.zombies| < |s.zombies|
    ensures !r.1 ==> r.0 == s
    decreases |s.threads| - i
  {
    if i >= |s.threads| then (s, false)
    else
      var (s1, reaped) := ReapOne(s, i);
      var (s2, more) := Sweep(s1, i + 1);
      (s2, reaped || more)
  }

  /** `reap_waiters`: sweep until a sweep reaps nothing. */
  function ReapWaiters(s: State): (r: State)
    ensures |r.threads| == |s.threads|
    decreases |s.zombies|
  {
    var (s1, progressed) := Sweep(s, 0);
    if progressed then ReapWaiters(s1) else s1
  }

  /** `has_child`. */
  predicate HasChild(threads: seq<Thread>, w: nat) {
    exists i :: 0 <= i < |threads| && i != w && threads[i].isProcess && !threads[i].exited
  }

  // ===== forked children =====

  /** What a forked child does, one guest step at a time, until its budget is spent. */
  datatype ChildRun = OutOfBudget | Then(event: ChildEvent, rest: ChildRun)

  datatype ChildEvent = Proceeded
                      | Halted
                      | Exited(a0: u64)
                      | Execed(outcome: Option<i32>)
                      | ClonedThread
                      | Forked(child: ChildRun)
                      | Waited(a0: u64)
                      | Dispatched(exit: Option<i32>)
                      | Faulted

  /** History: a zombie answered to a forked child's `wait4` for `want`. */
  datatype Reply = Reply(zombie: Zombie, want: i32)

  /** The locals of one `run_amd64_child` call; `issued`, `ended` and `delivered` are
      history, `issued` including what nested children were given. */
  datatype ChildState = ChildState(nextPid: i32, exitCode: Option<i32>, zombies: seq<Zombie>,
                                   issued: seq<i32>, ended: seq<Ended>, delivered: seq<Reply>)

  function FreshChild(nextPid: i32, exitCode: Option<i32>): ChildState {
    ChildState(nextPid, exitCode, [], [], [], [])
  }

  function ChildWait(c: ChildState, want: i32): ChildState {
    match FirstMatch(c.zombies, want)
    case None => c
    case Some(pos) =>
      c.(zombies := c.zombies[..pos] + c.zombies[pos + 1..], delivered := c.delivered + [Reply(c.zombies[pos], want)])
  }

  /** The child ran as `inner`, ended with `code`, and waits to be reaped. */
  function ChildForked(c: ChildState, code: i32, inner: ChildState): ChildState {
    c.(nextPid := inner.nextPid, exitCode := inner.exitCode,
       zombies := c.zombies + [Ended(c.nextPid, code).AsZombie()],
       issued := c.issued + [c.nextPid] + inner.issued,
       ended := c.ended + [Ended(c.nextPid, code)])
  }

  /** `run_amd64_child`: its exit code and what it leaves behind. */
  function RunChild(run: ChildRun, c: ChildState): (i32, ChildState)
    decreases run
  {
    match run
    case OutOfBudget => (-1, c)
    case Then(Proceeded, rest) => RunChild(rest, c)
    case Then(Halted, _) => (0, c)
    case Then(Exited(a0), _) => (AsI32(a0), c)
    case Then(Execed(Some(code)), _) => (code, c)
    case Then(Execed(None), rest) => RunChild(rest, c)
    case Then(ClonedThread, rest) => RunChild(rest, c)
    case Then(Forked(child), rest) =>
      var (code, inner) := RunChild(child, FreshChild(AsI32(c.nextPid + 1), c.exitCode));
      RunChild(rest, ChildForked(c, code, inner))
    case Then(Waited(a0), rest) => RunChild(rest, ChildWait(c, AsI32(a0)))
    case Then(Dispatched(exit), rest) =>
      var d := if exit.Some? then c.(exitCode := exit) else c;
      if d.exitCode.Some? then (d.exitCode.value, d) else RunChild(rest, d)
    case Then(Faulted, _) => (-1, c)
  }

  // ===== the loop =====

  /** `Choose` is the head of the outer loop; every other event is one guest step, with
      what the guest or the kernel beneath the scheduler chose to do. */
  datatype Event = Choose(overBudget: bool)
                 | Continue(rax: u64, memory: Memory)
                 | QuantumEnd
                 | Halt
                 | Trap
                 | Exit(a0: u64)
                 | Clone(flags: u64, a2: u64, a3: u64, child: ChildRun)
                 | Execve(outcome: Option<i32>)
                 | Wait4(a0: u64, a1: u64, a2: u64)
                 | Futex(a0: u64, a1: u64, a2: u64)
                 | SchedYield
                 | Other(rax: u64, memory: Memory, exit: Option<i32>)

  function PickFrom(threads: seq<Thread>, cur: nat, off: nat): (r: Option<nat>)
    ensures r.Some? ==> r.value < |threads| && threads[r.value].Runnable()
    decreases |threads| - off
  {
    if off >= |threads| then None
    else
      var i := (cur + off) % |threads|;
      if threads[i].Runnable() then Some(i) else PickFrom(threads, cur, off + 1)
  }

  /** The first runnable thread in cyclic order from `cur`. */
  function Pick(threads: seq<Thread>, cur: nat): (r: Option<nat>)
    ensures r.Some? ==> r.value < |threads| && threads[r.value].Runnable()
  {
    PickFrom(threads, cur, 0)
  }

  function ChooseNext(s: State, overBudget: bool): State {
    if s.exitCode.Some? then s.(phase := Done(s.exitCode))
    else if overBudget then s.(phase := Done(Some(-1)))
    else
      match Pick(s.threads, s.cur)
      case None => s.(phase := Done(Some(0)))
      case Some(i) => s.(phase := Running(i), cur := (i + 1) % |s.threads|)
  }

  function SetRax(s: State, i: nat, ret: int): State
    requires i < |s.threads|
  {
    s.(threads := s.threads[i := s.threads[i].(rax := AsU64(ret))])
  }

  /** A child process has ended: it becomes a zombie and parked waiters are re-checked. */
  function Bury(s: State, tid: i32, code: i32): State {
    ReapWaiters(s.(zombies := s.zombies + [Ended(tid, code).AsZombie()], ended := s.ended + [Ended(tid, code)]))
  }

  predicate AllExited(threads: seq<Thread>) { forall t :: t in threads ==> t.exited }

  /** What both `exit` and a finished `execve` do once thread `i` is marked exited. */
  function Conclude(s: State, i: nat, code: i32): State
    requires i < |s.threads|
  {
    var t := s.threads[i];
    var s1 := if t.tid == 1 then s.(exitCode := Some(code)) else if t.isProcess then Bury(s, t.tid, code) else s;
    var s2 := if AllExited(s1.threads) && s1.exitCode.None? then s1.(exitCode := Some(0)) else s1;
    s2.(phase := Choosing)
  }

  function MarkExited(s: State, i: nat): State
    requires i < |s.threads|
  {
    s.(threads := s.threads[i := s.threads[i].(exited := true)])
  }

  /** Zero the `CLONE_CHILD_CLEARTID` word and wake everyone parked on it. */
  function ReleaseJoiners(s: State, c: u32): State {
    if c == 0 then s
    else s.(memory := Store32(s.memory, c, 0).0, threads := Woken(s.threads, c, I32_MAX))
  }

  function ServeExit(s: State, i: nat, a0: u64): State
    requires i < |s.threads|
  {
    Conclude(ReleaseJoiners(MarkExited(s, i), s.threads[i].clearChildTid), i, AsI32(a0))
  }

  function SetTids(m: Memory, flags: u64, ptid: u32, ctid: u32, tid: i32): Memory {
    var m1 := if Bit(flags, CLONE_PARENT_SETTID) && ptid != 0 then Store32(m, ptid, AsU32(tid)).0 else m;
    if Bit(flags, CLONE_CHILD_SETTID) && ctid != 0 then Store32(m1, ctid, AsU32(tid)).0 else m1
  }

  /** A new id: the parent's return value and the id words. */
  function Issue(s: State, i: nat, flags: u64, ptid: u32, ctid: u32): State
    requires i < |s.threads|
  {
    SetRax(s, i, s.nextTid).(nextTid := AsI32(s.nextTid + 1), issued := s.issued + [s.nextTid],
      memory := SetTids(s.memory, flags, ptid, ctid, s.nextTid))
  }

  function Spawn(s: State, tid: i32, clearChildTid: u32): State {
    s.(threads := s.threads + [Thread(tid, None, clearChildTid, false, false, None, 0)], phase := Choosing)
  }

  function ForkChild(s: State, tid: i32, child: ChildRun): State {
    var (code, c) := RunChild(child, FreshChild(s.nextTid, s.exitCode));
    Bury(s.(nextTid := c.nextPid, exitCode := c.exitCode, issued := s.issued + c.issued), tid, code)
      .(phase := Choosing)
  }

  /** `clone`, and `fork`/`vfork` with all flags clear. */
  function ServeClone(s: State, i: nat, flags: u64, ptid: u32, ctid: u32, child: ChildRun): State
    requires i < |s.threads|
  {
    var s1 := Issue(s, i, flags, ptid, ctid);
    if Bit(flags, CLONE_THREAD) then Spawn(s1, s.nextTid, if Bit(flags, CLONE_CHILD_CLEARTID) then ctid else 0)
    else ForkChild(s1, s.nextTid, child)
  }

  function ServeExecve(s: State, i: nat, outcome: Option<i32>): State
    requires i < |s.threads|
  {
    match outcome
    case Some(code) => Conclude(MarkExited(s, i), i, code)
    case None => SetRax(s, i, -2)
  }

  function StartWait(s: State, i: nat, want: i32, ptr: u32): State
    requires i < |s.threads|
  {
    s.(threads := s.threads[i := s.threads[i].(waiting := Some(Wait(want, ptr)))])
  }

  function EndWait(s: State, i: nat, ret: int): State
    requires i < |s.threads|
  {
    s.(threads := s.threads[i := s.threads[i].(waiting := None, rax := AsU64(ret))])
  }

  function ServeWait4(s: State, i: nat, want: i32, ptr: u32, options: u32): State
    requires i < |s.threads|
  {
    var s1 := StartWait(s, i, want, ptr);
    var (s2, reaped) := ReapOne(s1, i);
    if reaped then s2
    else if options % 2 == 1 then EndWait(s1, i, 0)
    else if !HasChild(s1.threads, i) then EndWait(s1, i, -10)
    else s1.(phase := Choosing)
  }

  function ServeFutex(s: State, i: nat, uaddr: u32, op: u32, val: u32): State
    requires i < |s.threads|
  {
    var cmd := op % 128;
    if cmd == 0 || cmd == 9 then
      if Load32(s.memory, uaddr) == Some(val) then
        var s1 := SetRax(s, i, 0);
        s1.(threads := s1.threads[i := s1.threads[i].(blockedOn := Some(uaddr))], phase := Choosing)
      else SetRax(s, i, -11)
    else if cmd == 1 || cmd == 10 then
      var n := AsI32(val);
      SetRax(s.(threads := Woken(s.threads, uaddr, n)), i, WokenCount(s.threads, uaddr, n))
    else SetRax(s, i, 0)
  }

  /** One event of thread `i`'s inner loop. */
  function Serve(s: State, i: nat, e: Event): State
    requires i < |s.threads| && !e.Choose?
  {
    match e
    case Continue(rax, memory) => SetRax(s, i, rax).(memory := memory)
    case QuantumEnd => s.(phase := Choosing)
    case Halt => MarkExited(s, i).(phase := Choosing)
    case Trap => s.(phase := Done(None))
    case Exit(a0) => ServeExit(s, i, a0)
    case Clone(flags, a2, a3, child) => ServeClone(s, i, flags, AsU32(a2), AsU32(a3), child)
    case Execve(outcome) => ServeExecve(s, i, outcome)
    case Wait4(a0, a1, a2) => ServeWait4(s, i, AsI32(a0), AsU32(a1), AsU32(a2))
    case Futex(a0, a1, a2) => ServeFutex(s, i, AsU32(a0), AsU32(a1), AsU32(a2))
    case SchedYield => SetRax(s, i, 0).(phase := Choosing)
    case Other(rax, memory, exit) =>
      var code := if exit.Some? then exit else s.exitCode;
      SetRax(s, i, rax).(memory := memory, exitCode := code,
        phase := if code.Some? then Choosing else s.phase)
  }

  /** The state after event `e`, when the loop can take it. */
  function Step(s: State, e: Event): Option<State> {
    match s.phase
    case Done(_) => None
    case Choosing => if e.Choose? then Some(ChooseNext(s, e.overBudget)) else None
    case Running(i) => if e.Choose? || i >= |s.threads| then None else Some(Serve(s, i, e))
  }

  /** The loop driven by `events` for as long as it can take them. */
  function Drive(s: State, events: seq<Event>): State
    decreases |events|
  {
    if events == [] then s
    else
      match Step(s, events[0])
      case None => s
      case Some(r) => Drive(r, events[1..])
  }

  /** Thread 1 alone, ready to run. */
  function Initial(memory: Memory, rax: u64): State {
    State([Thread(1, None, 0, false, true, None, rax)], [], memory, 0, 2, None, Choosing, [], [], [])
  }

  /** A stretch of a run: consecutive states joined by events. */
  ghost predicate Trace(states: seq<State>, events: seq<Event>) {
    && |states| == |events| + 1
    && forall k :: 0 <= k < |events| ==> Step(states[k], events[k]) == Some(states[k + 1])
  }

  /** A run from the start. */
  ghost predicate Run(states: seq<State>, events: seq<Event>) {
    Trace(states, events) && exists memory, rax :: states[0] == Initial(memory, rax)
  }
}
