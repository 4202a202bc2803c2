/** What every step of the scheduler keeps, and what follows for whole runs. */
module SchedulerSafety {
  import opened Bytes
  import opened GuestMemory
  import opened Outcome
  import opened Scheduler

  // ===== waking =====

  lemma {:induction false} WaitersMonotone(threads: seq<Thread>, addr: u32, i: nat)
    requires i <= |threads|
    ensures Waiters(threads[..i], addr) <= Waiters(threads, addr)
    ensures i < |threads| && threads[i].blockedOn == Some(addr) ==>
      Waiters(threads[..i], addr) < Waiters(threads, addr)
    decreases |threads|
  {
    var n := |threads| - 1;
    if i == |threads| {
      assert threads[..i] == threads;
    } else if i == n {
    } else {
      WaitersMonotone(threads[..n], addr, i);
      assert threads[..n][..i] == threads[..i];
    }
  }

  lemma WaitersBound(threads: seq<Thread>, addr: u32)
    ensures Waiters(threads, addr) <= |threads|
  {
    if threads != [] {
      WaitersBound(threads[..|threads| - 1], addr);
    }
  }

  /** `wake_futex` leaves exactly the waiters it did not count, and touches nothing but
      `blocked_on`. */
  lemma {:induction false} WakeRemainder(threads: seq<Thread>, addr: u32, n: int, k: nat)
    requires k <= |threads|
    ensures Waiters(Woken(threads, addr, n)[..k], addr) ==
      Waiters(threads[..k], addr) - WokenCount(threads[..k], addr, n)
    decreases k
  {
    if k > 0 {
      var after := Woken(threads, addr, n);
      WakeRemainder(threads, addr, n, k - 1);
      assert after[..k][..k - 1] == after[..k - 1] && threads[..k][..k - 1] == threads[..k - 1];
      assert after[k - 1] == if AmongFirst(threads, addr, n, k - 1)
        then threads[k - 1].(blockedOn := None) else threads[k - 1];
    }
  }

  /** Waking at least as many as are parked leaves no one parked. */
  lemma WakeAll(threads: seq<Thread>, addr: u32, n: int)
    requires |threads| <= n
    ensures forall t :: t in Woken(threads, addr, n) ==> t.blockedOn != Some(addr)
  {
    forall i | 0 <= i < |threads|
      ensures Woken(threads, addr, n)[i].blockedOn != Some(addr)
    {
      WaitersMonotone(threads, addr, i);
      WaitersBound(threads, addr);
    }
  }

  // ===== reaping =====

  function ZombiesOf(d: seq<Delivery>): (r: seq<Zombie>)
    ensures |r| == |d|
  {
    seq(|d|, i requires 0 <= i < |d| => d[i].zombie)
  }

  /** No parked `wait4` could be satisfied from the zombie list. */
  predicate Settled(threads: seq<Thread>, zombies: seq<Zombie>) {
    forall i, z :: 0 <= i < |threads| && threads[i].waiting.Some? && z in zombies ==>
      !Matches(threads[i].waiting.value.want, z)
  }

  /** `after` is `before` with some waiters served. */
  predicate Served(before: Thread, after: Thread) {
    || after == before
    || (before.waiting.Some? && after == before.(waiting := None, rax := after.rax))
  }

  /** What any amount of reaping may do. */
  ghost predicate Reaped(s: State, r: State) {
    && r == s.(threads := r.threads, zombies := r.zombies, memory := r.memory, delivered := r.delivered)
    && |r.threads| == |s.threads|
    && (forall i :: 0 <= i < |s.threads| ==> Served(s.threads[i], r.threads[i]))
    && multiset(r.zombies) <= multiset(s.zombies)
    && s.delivered <= r.delivered
    && multiset(r.zombies) + multiset(ZombiesOf(r.delivered)) == multiset(s.zombies) + multiset(ZombiesOf(s.delivered))
    && (forall k :: |s.delivered| <= k < |r.delivered| ==> Handed(s.threads, r.threads, r.delivered[k]))
    && (forall i :: 0 <= i < |s.threads| && r.threads[i] != s.threads[i] ==> HandedTo(s, r, i))
    && r.memory == PayAll(s.memory, r.delivered[|s.delivered|..])
  }

  /** The status word of one delivery. */
  function Pay(m: Memory, d: Delivery): Memory {
    if d.statusPtr != 0 then Store32(m, d.statusPtr, AsU32(d.zombie.status)).0 else m
  }

  /** The status words of several, in order. */
  function PayAll(m: Memory, ds: seq<Delivery>): Memory
    decreases |ds|
  {
    if ds == [] then m else Pay(PayAll(m, ds[..|ds| - 1]), ds[|ds| - 1])
  }

  lemma {:induction false} PayAppend(m: Memory, a: seq<Delivery>, b: seq<Delivery>)
    ensures PayAll(m, a + b) == PayAll(PayAll(m, a), b)
    decreases |b|
  {
    hide Pay;
    if b == [] {
      assert a + b == a;
    } else {
      var n := |b| - 1;
      PayAppend(m, a, b[..n]);
      assert (a + b)[..|a + b| - 1] == a + b[..n];
    }
  }

  /** The delivery went to a thread that waited for it, which now has its answer. */
  predicate Handed(before: seq<Thread>, after: seq<Thread>, d: Delivery) {
    && Proper(before, d) && d.waiter < |after|
    && after[d.waiter] == before[d.waiter].(waiting := None, rax := AsU64(d.zombie.tid))
  }

  predicate HandedTo(s: State, r: State, i: nat) {
    exists k :: |s.delivered| <= k < |r.delivered| && r.delivered[k].waiter == i
  }

  /** The delivery went to a thread parked in a `wait4` that asked for that child. */
  predicate Proper(threads: seq<Thread>, d: Delivery) {
    && d.waiter < |threads|
    && threads[d.waiter].waiting.Some?
    && Wait(d.want, d.statusPtr) == threads[d.waiter].waiting.value
    && Matches(d.want, d.zombie)
  }

  lemma ReapedTransitive(s: State, m: State, r: State)
    requires Reaped(s, m) && Reaped(m, r)
    ensures Reaped(s, r)
  {
    forall i | 0 <= i < |s.threads| ensures Served(s.threads[i], r.threads[i]) {
      assert Served(s.threads[i], m.threads[i]) && Served(m.threads[i], r.threads[i]);
    }
    forall k | |s.delivered| <= k < |r.delivered| ensures Handed(s.threads, r.threads, r.delivered[k]) {
      HandedLater(s, m, r, k);
    }
    forall i | 0 <= i < |s.threads| && r.threads[i] != s.threads[i] ensures HandedTo(s, r, i) {
      if m.threads[i] != s.threads[i] {
        assert HandedTo(s, m, i);
        var k :| |s.delivered| <= k < |m.delivered| && m.delivered[k].waiter == i;
        assert r.delivered[k] == m.delivered[k];
      } else {
        assert HandedTo(m, r, i);
      }
    }
    var a, b := m.delivered[|s.delivered|..], r.delivered[|m.delivered|..];
    assert m.delivered == r.delivered[..|m.delivered|];
    assert r.delivered[|s.delivered|..] == a + b;
    PayAppend(s.memory, a, b);
  }

  lemma HandedLater(s: State, m: State, r: State, k: nat)
    requires Reaped(s, m) && Reaped(m, r) && |s.delivered| <= k < |r.delivered|
    ensures Handed(s.threads, r.threads, r.delivered[k])
  {
    hide PayAll, ZombiesOf;
    var d := r.delivered[k];
    if k < |m.delivered| {
      assert m.delivered[k] == d;
      assert Handed(s.threads, m.threads, d) && Served(m.threads[d.waiter], r.threads[d.waiter]);
    } else {
      assert Handed(m.threads, r.threads, d) && Served(s.threads[d.waiter], m.threads[d.waiter]);
    }
  }

  lemma RemoveAt<T>(s: seq<T>, pos: nat)
    requires pos < |s|
    ensures multiset(s) == multiset(s[..pos] + s[pos + 1..]) + multiset{s[pos]}
  {
    assert s == s[..pos] + [s[pos]] + s[pos + 1..];
  }

  lemma ZombiesOfSnoc(d: seq<Delivery>, x: Delivery)
    ensures ZombiesOf(d + [x]) == ZombiesOf(d) + [x.zombie]
  {}

  lemma ReapOneReaps(s: State, w: nat)
    requires w < |s.threads|
    ensures Reaped(s, ReapOne(s, w).0)
    ensures !ReapOne(s, w).1 && s.threads[w].waiting.Some? ==>
      forall z :: z in s.zombies ==> !Matches(s.threads[w].waiting.value.want, z)
    ensures ReapOne(s, w).1 ==> ReapOne(s, w).0.threads[w].waiting.None?
  {
    hide HandOver, FirstMatch, Reaped;
    if s.threads[w].waiting.Some? {
      var found := FirstMatch(s.zombies, s.threads[w].waiting.value.want);
      if found.Some? {
        HandOverReaps(s, w, found.value);
        HandOverAnswers(s, w, found.value);
      } else {
        NothingReaped(s);
      }
    } else {
      NothingReaped(s);
    }
  }

  lemma NothingReaped(s: State)
    ensures Reaped(s, s)
  {
    hide ZombiesOf;
    assert s.delivered[|s.delivered|..] == [];
  }

  /** What the waiter and the guest see of one reap. */
  lemma HandOverAnswers(s: State, w: nat, pos: nat)
    requires w < |s.threads| && s.threads[w].waiting.Some? && pos < |s.zombies|
    requires Matches(s.threads[w].waiting.value.want, s.zombies[pos])
    ensures var r := HandOver(s, w, pos);
      && |r.delivered| == |s.delivered| + 1 && s.delivered == r.delivered[..|s.delivered|]
      && var d := r.delivered[|s.delivered|];
      && d.zombie == s.zombies[pos] && d.waiter == w
      && Handed(s.threads, r.threads, d) && r.memory == Pay(s.memory, d)
      && r.threads == s.threads[w := r.threads[w]] && Served(s.threads[w], r.threads[w])
      && r.zombies == s.zombies[..pos] + s.zombies[pos + 1..]
      && r == s.(threads := r.threads, zombies := r.zombies, memory := r.memory, delivered := r.delivered)
  {
    hide Store32;
  }

  lemma HandOverReaps(s: State, w: nat, pos: nat)
    requires w < |s.threads| && s.threads[w].waiting.Some? && pos < |s.zombies|
    requires Matches(s.threads[w].waiting.value.want, s.zombies[pos])
    ensures Reaped(s, HandOver(s, w, pos))
  {
    hide HandOver, ZombiesOf, Pay, Handed, PayAll;
    var r := HandOver(s, w, pos);
    HandOverAnswers(s, w, pos);
    var d := r.delivered[|s.delivered|];
    assert r.delivered == s.delivered + [d] && r.delivered[|s.delivered|..] == [d];
    MoveZombie(s.zombies, pos, s.delivered, d);
    PayOne(s.memory, d);
    forall i | 0 <= i < |s.threads| && r.threads[i] != s.threads[i] ensures HandedTo(s, r, i) {
      assert r.delivered[|s.delivered|].waiter == i;
    }
  }

  lemma PayOne(m: Memory, d: Delivery)
    ensures PayAll(m, [d]) == Pay(m, d)
  {
    assert [d][..0] == [];
    assert PayAll(m, []) == m;
  }

  lemma MoveZombie(zombies: seq<Zombie>, pos: nat, d: seq<Delivery>, x: Delivery)
    requires pos < |zombies| && x.zombie == zombies[pos]
    ensures multiset(zombies[..pos] + zombies[pos + 1..]) <= multiset(zombies)
    ensures multiset(zombies[..pos] + zombies[pos + 1..]) + multiset(ZombiesOf(d + [x])) ==
      multiset(zombies) + multiset(ZombiesOf(d))
  {
    RemoveAt(zombies, pos);
    ZombiesOfSnoc(d, x);
    assert multiset(ZombiesOf(d + [x])) == multiset(ZombiesOf(d)) + multiset{x.zombie};
  }

  /** After a sweep no thread it passed can still be served: the list only shrinks. */
  lemma {:induction false} SweepSettles(s: State, i: nat)
    requires i <= |s.threads|
    ensures Reaped(s, Sweep(s, i).0)
    ensures Sweep(s, i).0.threads[..i] == s.threads[..i]
    ensures Settled(Sweep(s, i).0.threads[i..], Sweep(s, i).0.zombies)
    decreases |s.threads| - i
  {
    hide ReapOne;
    if i < |s.threads| {
      var s1 := ReapOne(s, i).0;
      var r := Sweep(s, i).0;
      ReapOneReaps(s, i);
      ReapOneElsewhere(s, i);
      SweepSettles(s1, i + 1);
      ReapedTransitive(s, s1, r);
      assert r.threads[i] == r.threads[..i + 1][i] == s1.threads[i];
      assert r.threads[..i] == r.threads[..i + 1][..i] == s1.threads[..i + 1][..i] == s1.threads[..i];
      forall j, z | i <= j < |r.threads| && r.threads[j].waiting.Some? && z in r.zombies
        ensures !Matches(r.threads[j].waiting.value.want, z)
      {
        assert z in multiset(r.zombies) && z in multiset(s1.zombies);
        if j > i {
          assert r.threads[i + 1..][j - i - 1] == r.threads[j];
        }
      }
      SettledFrom(r, i);
    }
  }

  lemma SettledFrom(r: State, i: nat)
    requires i <= |r.threads|
    requires forall j, z :: i <= j < |r.threads| && r.threads[j].waiting.Some? && z in r.zombies ==>
      !Matches(r.threads[j].waiting.value.want, z)
    ensures Settled(r.threads[i..], r.zombies)
  {}

  lemma ReapOneElsewhere(s: State, w: nat)
    requires w < |s.threads|
    ensures ReapOne(s, w).0.threads[..w] == s.threads[..w]
    ensures !ReapOne(s, w).1 ==> ReapOne(s, w).0 == s
  {
    hide Store32, FirstMatch;
  }

  /** `reap_waiters` ends in a state where no parked `wait4` matches any zombie, having
      only moved zombies to threads that were waiting for them. */
  lemma {:induction false} ReapWaitersSettles(s: State)
    ensures Reaped(s, ReapWaiters(s))
    ensures Settled(ReapWaiters(s).threads, ReapWaiters(s).zombies)
    decreases |s.zombies|
  {
    hide Sweep;
    var (s1, progressed) := Sweep(s, 0);
    SweepSettles(s, 0);
    if progressed {
      ReapWaitersSettles(s1);
      ReapedTransitive(s, s1, ReapWaiters(s));
    } else {
      assert s1.threads[0..] == s1.threads;
    }
  }

  /** The second sweep never finds anything. */
  lemma SweepTwice(s: State)
    ensures Sweep(Sweep(s, 0).0, 0) == (Sweep(s, 0).0, false)
    ensures ReapWaiters(s) == Sweep(s, 0).0
  {
    hide Reaped;
    var s1 := Sweep(s, 0).0;
    SweepSettles(s, 0);
    assert s1.threads[0..] == s1.threads;
    NothingToSweep(s1, 0);
    assert ReapWaiters(s1) == s1;
  }

  lemma {:induction false} NothingToSweep(s: State, i: nat)
    requires Settled(s.threads, s.zombies)
    ensures Sweep(s, i) == (s, false)
    decreases |s.threads| - i
  {
    if i < |s.threads| {
      if s.threads[i].waiting.Some? {
        FirstMatchIn(s.zombies, s.threads[i].waiting.value.want);
      }
      NothingToSweep(s, i + 1);
    }
  }

  lemma FirstMatchIn(zombies: seq<Zombie>, want: i32)
    ensures FirstMatch(zombies, want).Some? <==> exists z :: z in zombies && Matches(want, z)
  {
    var m := FirstMatch(zombies, want);
    if m.Some? {
      assert zombies[m.value] in zombies;
    }
  }

  // ===== ids =====

  /** `k` consecutive ids from `n` on, as an `i32` counter gives them out. */
  function Ids(n: int, k: nat): (r: seq<i32>)
    ensures |r| == k
  {
    seq<i32>(k, j requires 0 <= j < k => AsI32(n + j))
  }

  lemma WrapPlus(x: int, j: int)
    ensures AsI32(AsI32(x) + j) == AsI32(x + j)
  {
    var q := if x % U32 <= I32_MAX then x / U32 else x / U32 + 1;
    assert AsI32(x) == x - q * U32;
    WrapShift(x + j, -q);
    assert AsI32(x) + j == x + j + -q * U32;
  }

  lemma WrapShift(x: int, q: int)
    ensures AsI32(x + q * U32) == AsI32(x)
  {
    assert (x + q * U32) % U32 == x % U32;
  }

  lemma IdsAppend(n: int, k: nat, m: nat)
    ensures Ids(n, k) + Ids(AsI32(n + k), m) == Ids(n, k + m)
  {
    var l, r := Ids(n, k) + Ids(AsI32(n + k), m), Ids(n, k + m);
    forall j | 0 <= j < k + m ensures l[j] == r[j] {
      if j >= k {
        assert l[j] == AsI32(AsI32(n + k) + (j - k));
        WrapPlus(n + k, j - k);
      }
    }
  }

  lemma IdsDistinct(n: int, i: nat, j: nat)
    requires i < j < i + U32
    ensures AsI32(n + i) != AsI32(n + j)
  {
    var d := (n + j) / U32 - (n + i) / U32;
    assert d == 0 || d == 1;
  }

  /** From `c` to `r` exactly the next ids were given out. */
  ghost predicate Issues(c: ChildState, r: ChildState) {
    && |c.issued| <= |r.issued|
    && r.issued == c.issued + Ids(c.nextPid, |r.issued| - |c.issued|)
    && r.nextPid == AsI32(c.nextPid + |r.issued| - |c.issued|)
  }

  lemma NoIds(c: ChildState, r: ChildState)
    requires r.issued == c.issued && r.nextPid == c.nextPid
    ensures Issues(c, r)
  {
    IdsNone(c.nextPid);
  }

  lemma ForkIds(c: ChildState, code: i32, inner: ChildState)
    requires Issues(FreshChild(AsI32(c.nextPid + 1), c.exitCode), inner)
    ensures Issues(c, ChildForked(c, code, inner))
  {
    hide Ids;
    var m := |inner.issued|;
    assert inner.issued == Ids(AsI32(c.nextPid + 1), m);
    IdsOne(c.nextPid, m);
    WrapPlus(c.nextPid + 1, m);
    assert c.issued + [c.nextPid] + inner.issued == c.issued + ([c.nextPid] + inner.issued);
  }

  /** A child run, nested children included, is given consecutive ids and nothing else. */
  lemma {:induction false} ChildIds(run: ChildRun, c: ChildState)
    ensures Issues(c, RunChild(run, c).1)
    decreases run
  {
    hide Issues, ChildForked;
    NoIds(c, c);
    match run
    case Then(Forked(child), rest) =>
      var start := FreshChild(AsI32(c.nextPid + 1), c.exitCode);
      var (code, inner) := RunChild(child, start);
      var d := ChildForked(c, code, inner);
      ChildIds(child, start);
      ForkIds(c, code, inner);
      ChildIds(rest, d);
      IssuesTransitive(c, d, RunChild(rest, d).1);
    case Then(Waited(a0), rest) =>
      var d := ChildWait(c, AsI32(a0));
      ChildIds(rest, d);
      NoIds(c, d);
      IssuesTransitive(c, d, RunChild(rest, d).1);
    case Then(Dispatched(exit), rest) =>
      var d := if exit.Some? then c.(exitCode := exit) else c;
      ChildIds(rest, d);
      NoIds(c, d);
      IssuesTransitive(c, d, RunChild(rest, d).1);
    case Then(Proceeded, rest) => ChildIds(rest, c);
    case Then(Execed(None), rest) => ChildIds(rest, c);
    case Then(ClonedThread, rest) => ChildIds(rest, c);
    case _ =>
  }

  lemma IdsNone(n: i32)
    ensures Ids(n, 0) == [] && AsI32(n) == n
  {}

  lemma IdsOne(n: i32, m: nat)
    ensures [n] + Ids(AsI32(n + 1), m) == Ids(n, 1 + m)
  {
    IdsNone(n);
    assert Ids(n, 1) == [n];
    IdsAppend(n, 1, m);
  }

  lemma IssuesTransitive(c: ChildState, d: ChildState, r: ChildState)
    requires Issues(c, d) && Issues(d, r)
    ensures Issues(c, r)
  {
    hide Ids;
    var k, m := |d.issued| - |c.issued|, |r.issued| - |d.issued|;
    IdsAppend(c.nextPid, k, m);
    WrapPlus(c.nextPid + k, m);
    assert c.issued + Ids(c.nextPid, k) + Ids(d.nextPid, m) == c.issued + (Ids(c.nextPid, k) + Ids(d.nextPid, m));
  }

  function ZombiesEnded(e: seq<Ended>): (r: seq<Zombie>)
    ensures |r| == |e|
  {
    seq(|e|, i requires 0 <= i < |e| => e[i].AsZombie())
  }

  lemma ZombiesEndedSnoc(e: seq<Ended>, x: Ended)
    ensures ZombiesEnded(e + [x]) == ZombiesEnded(e) + [x.AsZombie()]
    ensures multiset(ZombiesEnded(e + [x])) == multiset(ZombiesEnded(e)) + multiset{x.AsZombie()}
  {}

  function ZombiesReplied(ds: seq<Reply>): (r: seq<Zombie>)
    ensures |r| == |ds|
  {
    seq(|ds|, i requires 0 <= i < |ds| => ds[i].zombie)
  }

  lemma ZombiesRepliedSnoc(ds: seq<Reply>, d: Reply)
    ensures multiset(ZombiesReplied(ds + [d])) == multiset(ZombiesReplied(ds)) + multiset{d.zombie}
  {
    assert ZombiesReplied(ds + [d]) == ZombiesReplied(ds) + [d.zombie];
  }

  /** What ended waits or was answered, as often as it ended, and each answer is a child
      that `wait4` asked for. */
  ghost predicate ChildBalanced(c: ChildState) {
    && multiset(ZombiesEnded(c.ended)) == multiset(c.zombies) + multiset(ZombiesReplied(c.delivered))
    && forall d :: d in c.delivered ==> Matches(d.want, d.zombie)
  }

  lemma ForkBalanced(c: ChildState, code: i32, inner: ChildState)
    requires ChildBalanced(c)
    ensures ChildBalanced(ChildForked(c, code, inner))
  {
    hide ZombiesEnded;
    ZombiesEndedSnoc(c.ended, Ended(c.nextPid, code));
  }

  lemma WaitBalanced(c: ChildState, want: i32)
    requires ChildBalanced(c)
    ensures ChildBalanced(ChildWait(c, want))
  {
    hide ZombiesEnded, FirstMatch, ZombiesReplied;
    var m := FirstMatch(c.zombies, want);
    if m.Some? {
      RemoveAt(c.zombies, m.value);
      ZombiesRepliedSnoc(c.delivered, Reply(c.zombies[m.value], want));
    }
  }

  lemma SameBalance(c: ChildState, d: ChildState)
    requires ChildBalanced(c) && d == c.(exitCode := d.exitCode)
    ensures ChildBalanced(d)
  {}

  /** Inside a forked child too, every process it forks is waiting or was handed to a
      `wait4` that asked for it. */
  lemma {:induction false} ChildConserves(run: ChildRun, c: ChildState)
    requires ChildBalanced(c)
    ensures ChildBalanced(RunChild(run, c).1)
    decreases run
  {
    hide ChildBalanced, ChildForked, ChildWait;
    match run
    case Then(Forked(child), rest) =>
      var (code, inner) := RunChild(child, FreshChild(AsI32(c.nextPid + 1), c.exitCode));
      ForkBalanced(c, code, inner);
      ChildConserves(rest, ChildForked(c, code, inner));
    case Then(Waited(a0), rest) =>
      WaitBalanced(c, AsI32(a0));
      ChildConserves(rest, ChildWait(c, AsI32(a0)));
    case Then(Dispatched(exit), rest) =>
      var d := if exit.Some? then c.(exitCode := exit) else c;
      assert ChildBalanced(d) by { SameBalance(c, d); }
      ChildConserves(rest, d);
    case Then(Proceeded, rest) => ChildConserves(rest, c);
    case Then(Execed(None), rest) => ChildConserves(rest, c);
    case Then(ClonedThread, rest) => ChildConserves(rest, c);
    case _ =>
  }
}
