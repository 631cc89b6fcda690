/**
 * The verification queue of src/checkqueue.h as a state machine. Each critical section under the mutex is one
 * atomic step; running a single check outside it is another. Thread 0 is the master, the others are workers.
 */
module CheckQueue {
  import opened Common

  /** A verification; ok is what calling it returns. */
  datatype Check = Check(id: nat, ok: bool)

  /** Where a thread is in Loop. */
  datatype Thread =
    | Outside                                              // not in Loop
    | Ready                                                // about to enter for the first time, nNow == 0
    | Asleep(notified: bool)                               // in cond.wait
    | Working(batch: seq<Check>, done: nat, fOk: bool)     // holding nNow == |batch| checks, done of them executed

  /** The fields of CCheckQueue, the threads, and the checks added and accounted for since the last Wait. */
  datatype State = State(
    queue: seq<Check>,
    nIdle: int,
    nTotal: int,
    fAllOk: bool,
    nTodo: int,
    threads: seq<Thread>,
    added: multiset<Check>,
    accounted: multiset<Check>)

  const MASTER := 0

  // ---- the steps ----

  datatype Step =
    | Add(checks: seq<Check>, wake: nat)    // the master adds work
    | Begin(t: nat)                         // a worker starts, or the master calls Wait
    | Execute(t: nat)                       // one check is run
    | Enter(t: nat)                         // the mutex is taken at the top of the loop
    | Wake(t: nat)                          // cond.wait returns with the mutex held, spuriously or not

  function Notified(th: Thread): Thread {
    if th.Asleep? then Asleep(true) else th
  }

  /** condWorker.notify_all */
  function NotifyAll(ts: seq<Thread>): seq<Thread> {
    seq(|ts|, i requires 0 <= i < |ts| => if i == MASTER then ts[i] else Notified(ts[i]))
  }

  predicate Waiting(ts: seq<Thread>, t: nat) {
    t < |ts| && t != MASTER && ts[t] == Asleep(false)
  }

  /** condWorker.notify_one, when it picks the given worker */
  function NotifyOne(ts: seq<Thread>, t: nat): seq<Thread> {
    if Waiting(ts, t) then ts[t := Asleep(true)] else ts
  }

  function Added(s: State, checks: seq<Check>, wake: nat): State {
    s.(queue := s.queue + checks,
       nTodo := s.nTodo + |checks|,
       added := s.added + multiset(checks),
       threads := if |checks| == 1 then NotifyOne(s.threads, wake) else if |checks| > 1 then NotifyAll(s.threads) else s.threads)
  }

  function BatchSize(s: State, nBatchSize: nat): nat
    requires s.nTotal >= 0 && s.nIdle >= 0
  {
    var share := |s.queue| / (s.nTotal + s.nIdle + 1);
    var n := if nBatchSize < share then nBatchSize else share;
    if n < 1 then 1 else n
  }

  /** The last n checks of the queue, last first. */
  function Taken(q: seq<Check>, n: nat): seq<Check>
    requires n <= |q|
  {
    seq(n, i requires 0 <= i < n => q[|q| - 1 - i])
  }

  lemma BatchFits(s: State, nBatchSize: nat)
    requires s.nTotal >= 0 && s.nIdle >= 0 && s.queue != []
    ensures 1 <= BatchSize(s, nBatchSize) <= |s.queue|
    ensures BatchSize(s, nBatchSize) > 1 ==> BatchSize(s, nBatchSize) <= nBatchSize
  {
  }

  /**
   * A batch is the largest within the limit that leaves every thread, counting the idle ones twice, and one more as much;
   * but never empty.
   */
  lemma BatchExact(s: State, nBatchSize: nat)
    requires s.nTotal >= 0 && s.nIdle >= 0
    ensures var n, d := BatchSize(s, nBatchSize), s.nTotal + s.nIdle + 1;
            && n >= 1 && (n > 1 ==> n <= nBatchSize && n * d <= |s.queue|)
            && (n < nBatchSize ==> |s.queue| < (n + 1) * d)
  {
    Share(|s.queue|, s.nTotal + s.nIdle + 1, BatchSize(s, nBatchSize));
  }

  lemma Share(q: nat, d: int, n: nat)
    requires d >= 1
    ensures n <= q / d ==> n * d <= q
    ensures n >= q / d ==> q < (n + 1) * d
  {
    var k := q / d;
    assert q == k * d + q % d;
    if n <= k {
      assert n * d <= k * d;
    }
    if n >= k {
      assert (n + 1) * d >= (k + 1) * d;
    }
  }

  /** Once a failure is known the checks of further batches are not run: their verdict stays false. */
  lemma NoWorkAfterFailure(s: State, t: nat, nBatchSize: nat, done: nat)
    requires t < |s.threads| && s.nTotal >= 0 && s.nIdle >= 0 && s.queue != [] && !s.fAllOk
    ensures var th := Proceeded(s, t, nBatchSize).0.threads[t];
            && th.Working? && !th.fOk && th.done == 0
            && (done < |th.batch| ==> Executed(th.(done := done)) == th.(done := done + 1))
  {
  }

  /** The rest of the critical section, from the test for an empty queue on; the master may leave with an answer. */
  function Proceeded(s: State, t: nat, nBatchSize: nat): (State, Option<bool>)
    requires t < |s.threads| && s.nTotal >= 0 && s.nIdle >= 0
  {
    if s.queue == [] then
      if t == MASTER && s.nTodo == 0 then
        (s.(nTotal := s.nTotal - 1, fAllOk := true, threads := s.threads[t := Outside], added := multiset{}, accounted := multiset{}),
         Some(s.fAllOk))
      else
        (s.(nIdle := s.nIdle + 1, threads := s.threads[t := Asleep(false)]), None)
    else
      BatchFits(s, nBatchSize);
      var n := BatchSize(s, nBatchSize);
      (s.(queue := s.queue[..|s.queue| - n], threads := s.threads[t := Working(Taken(s.queue, n), 0, s.fAllOk)]), None)
  }

  /** The clean-up of the previous round. */
  function Accounted(s: State, t: nat): State
    requires t < |s.threads| && (s.threads[t].Ready? || s.threads[t].Working?)
  {
    match s.threads[t]
    case Working(batch, _, fOk) =>
      var left := s.nTodo - |batch|;
      var ts := s.threads[t := Ready];
      s.(fAllOk := s.fAllOk && fOk, nTodo := left, accounted := s.accounted + multiset(batch),
         threads := if left == 0 && t != MASTER then ts[MASTER := Notified(ts[MASTER])] else ts)
    case _ => s.(nTotal := s.nTotal + 1)
  }

  function Woken(s: State, t: nat): State
    requires t < |s.threads|
  {
    s.(nIdle := s.nIdle - 1, threads := s.threads[t := Ready])
  }

  function Executed(th: Thread): Thread
    requires th.Working? && th.done < |th.batch|
  {
    th.(done := th.done + 1, fOk := if th.fOk then th.batch[th.done].ok else th.fOk)
  }

  predicate Enabled(s: State, step: Step) {
    match step
    case Add(checks, wake) =>
      |s.threads| > 0 && s.threads[MASTER].Outside?
      && (|checks| == 1 ==> Waiting(s.threads, wake) || forall t :: 0 <= t < |s.threads| ==> !Waiting(s.threads, t))
    case Begin(t) => t < |s.threads| && s.threads[t].Outside?
    case Execute(t) => t < |s.threads| && s.threads[t].Working? && s.threads[t].done < |s.threads[t].batch|
    case Enter(t) => t < |s.threads| && (s.threads[t].Ready? || (s.threads[t].Working? && s.threads[t].done == |s.threads[t].batch|))
    case Wake(t) => t < |s.threads| && s.threads[t].Asleep?
  }

  ghost function Next(s: State, step: Step, nBatchSize: nat): (State, Option<bool>)
    requires Inv(s) && Enabled(s, step)
  {
    match step
    case Add(checks, wake) => (Added(s, checks, wake), None)
    case Begin(t) => (s.(threads := s.threads[t := Ready]), None)
    case Execute(t) => (s.(threads := s.threads[t := Executed(s.threads[t])]), None)
    case Enter(t) => AccountStep(s, t); Proceeded(Accounted(s, t), t, nBatchSize)
    case Wake(t) => WokenStep(s, t); Proceeded(Woken(s, t), t, nBatchSize)
  }

  // ---- sums over the threads ----

  ghost function Sum(ts: seq<Thread>, f: Thread -> int): int {
    if ts == [] then 0 else Sum(ts[..|ts| - 1], f) + f(ts[|ts| - 1])
  }

  lemma {:induction false} SumUpdate(ts: seq<Thread>, f: Thread -> int, t: nat, th: Thread)
    requires t < |ts|
    ensures Sum(ts[t := th], f) == Sum(ts, f) - f(ts[t]) + f(th)
  {
    var n := |ts| - 1;
    if t < n {
      assert ts[t := th][..n] == ts[..n][t := th];
      SumUpdate(ts[..n], f, t, th);
    } else {
      assert ts[t := th][..n] == ts[..n];
    }
  }

  lemma {:induction false} SumSame(a: seq<Thread>, b: seq<Thread>, f: Thread -> int)
    requires |a| == |b| && forall i :: 0 <= i < |a| ==> f(a[i]) == f(b[i])
    ensures Sum(a, f) == Sum(b, f)
  {
    if a != [] {
      SumSame(a[..|a| - 1], b[..|b| - 1], f);
    }
  }

  lemma {:induction false} SumAt(ts: seq<Thread>, f: Thread -> int, t: nat)
    requires t < |ts| && forall th :: f(th) >= 0
    ensures 0 <= f(ts[t]) <= Sum(ts, f)
  {
    var n := |ts| - 1;
    if t < n {
      SumAt(ts[..n], f, t);
    } else {
      SumNat(ts[..n], f);
    }
  }

  lemma {:induction false} SumNat(ts: seq<Thread>, f: Thread -> int)
    requires forall th :: f(th) >= 0
    ensures Sum(ts, f) >= 0
  {
    if ts != [] {
      SumNat(ts[..|ts| - 1], f);
    }
  }

  lemma {:induction false} SumPositive(ts: seq<Thread>, f: Thread -> int) returns (t: nat)
    requires Sum(ts, f) > 0
    ensures t < |ts| && f(ts[t]) > 0
  {
    var n := |ts| - 1;
    if f(ts[n]) > 0 {
      t := n;
    } else {
      t := SumPositive(ts[..n], f);
    }
  }

  function IsIdle(th: Thread): int {
    if th.Asleep? then 1 else 0
  }

  function IsIn(th: Thread): int {
    if th.Asleep? || th.Working? then 1 else 0
  }

  function HeldCount(th: Thread): int {
    if th.Working? then |th.batch| else 0
  }

  function HeldBy(th: Thread): multiset<Check> {
    if th.Working? then multiset(th.batch) else multiset{}
  }

  ghost function Held(ts: seq<Thread>): multiset<Check> {
    if ts == [] then multiset{} else Held(ts[..|ts| - 1]) + HeldBy(ts[|ts| - 1])
  }

  lemma {:induction false} HeldUpdate(ts: seq<Thread>, t: nat, th: Thread)
    requires t < |ts|
    ensures Held(ts[t := th]) + HeldBy(ts[t]) == Held(ts) + HeldBy(th)
  {
    var n := |ts| - 1;
    if t < n {
      assert ts[t := th][..n] == ts[..n][t := th];
      HeldUpdate(ts[..n], t, th);
      var x, y := HeldBy(ts[n]), HeldBy(ts[t]);
      assert Held(ts[t := th]) + y == Held(ts[..n][t := th]) + y + x;
      assert Held(ts) + HeldBy(th) == Held(ts[..n]) + HeldBy(th) + x;
    } else {
      assert ts[t := th][..n] == ts[..n];
    }
  }

  lemma {:induction false} HeldSame(a: seq<Thread>, b: seq<Thread>)
    requires |a| == |b| && forall i :: 0 <= i < |a| ==> HeldBy(a[i]) == HeldBy(b[i])
    ensures Held(a) == Held(b)
  {
    if a != [] {
      HeldSame(a[..|a| - 1], b[..|b| - 1]);
    }
  }

  lemma {:induction false} HeldAt(ts: seq<Thread>, t: nat)
    requires t < |ts|
    ensures HeldBy(ts[t]) <= Held(ts)
  {
    var n := |ts| - 1;
    if t < n {
      HeldAt(ts[..n], t);
    }
  }

  lemma {:induction false} HeldSize(ts: seq<Thread>)
    ensures |Held(ts)| == Sum(ts, HeldCount)
  {
    if ts != [] {
      HeldSize(ts[..|ts| - 1]);
    }
  }

  // ---- the invariant ----

  ghost predicate SomeFalse(m: multiset<Check>) {
    exists c :: c in m && !c.ok
  }

  ghost predicate AllTrue(m: multiset<Check>) {
    forall c :: c in m ==> c.ok
  }

  /** What a batch in progress has found so far. */
  ghost predicate ThreadOk(th: Thread, added: multiset<Check>) {
    th.Working? ==>
      && th.done <= |th.batch| && th.batch != []
      && (th.fOk ==> forall i :: 0 <= i < th.done ==> th.batch[i].ok)
      && (!th.fOk ==> SomeFalse(added))
  }

  /** Every check added is queued, held by a thread, or accounted for, and nTodo counts those not accounted for. */
  ghost predicate Conserved(queue: seq<Check>, added: multiset<Check>, accounted: multiset<Check>, nTodo: int, ts: seq<Thread>) {
    added == multiset(queue) + Held(ts) + accounted && nTodo == |queue| + Sum(ts, HeldCount)
  }

  ghost predicate Counted(nIdle: int, nTotal: int, ts: seq<Thread>) {
    nIdle == Sum(ts, IsIdle) && nTotal == Sum(ts, IsIn)
  }

  ghost predicate VerdictOk(fAllOk: bool, added: multiset<Check>, accounted: multiset<Check>, ts: seq<Thread>) {
    && (fAllOk ==> AllTrue(accounted))
    && (!fAllOk ==> SomeFalse(added))
    && (forall t :: 0 <= t < |ts| ==> ThreadOk(ts[t], added))
  }

  /** A sleeping master has been told, or there is something left to do, but nothing in the queue. */
  ghost predicate MasterOk(s: State) {
    |s.threads| > 0 && (s.threads[MASTER] == Asleep(false) ==> s.queue == [] && s.nTodo > 0)
  }

  ghost predicate Inv(s: State) {
    && Conserved(s.queue, s.added, s.accounted, s.nTodo, s.threads)
    && Counted(s.nIdle, s.nTotal, s.threads)
    && VerdictOk(s.fAllOk, s.added, s.accounted, s.threads)
    && MasterOk(s)
  }

  function Initial(threads: nat): State {
    State([], 0, 0, true, 0, seq(threads + 1, _ => Outside), multiset{}, multiset{})
  }

  lemma {:induction false} OutsideSums(n: nat)
    ensures var ts := seq(n, _ => Outside); Sum(ts, IsIdle) == 0 && Sum(ts, IsIn) == 0 && Sum(ts, HeldCount) == 0 && Held(ts) == multiset{}
  {
    if n > 0 {
      OutsideSums(n - 1);
      assert seq(n, _ => Outside)[..n - 1] == seq(n - 1, _ => Outside);
    }
  }

  lemma InitialOk(threads: nat)
    ensures Inv(Initial(threads))
  {
    OutsideSums(threads + 1);
  }

  // ---- every step keeps it ----

  lemma IdleCounts(s: State)
    requires Inv(s)
    ensures s.nIdle >= 0 && s.nTotal >= 0 && s.nTodo >= 0
  {
    SumNat(s.threads, IsIdle);
    SumNat(s.threads, IsIn);
    SumNat(s.threads, HeldCount);
  }

  /** While a thread is in its critical section it counts as Ready, with nTotal raised already. */
  ghost predicate Inside(s: State, t: nat) {
    && t < |s.threads| && s.threads[t].Ready? && s.nIdle >= 0 && s.nTotal >= 0 && s.nTodo >= 0
    && Conserved(s.queue, s.added, s.accounted, s.nTodo, s.threads)
    && Counted(s.nIdle, s.nTotal - 1, s.threads)
    && VerdictOk(s.fAllOk, s.added, s.accounted, s.threads)
    && MasterOk(s)
  }

  lemma CountedUpdate(nIdle: int, nTotal: int, ts: seq<Thread>, t: nat, th: Thread)
    requires Counted(nIdle, nTotal, ts) && t < |ts|
    ensures Counted(nIdle - IsIdle(ts[t]) + IsIdle(th), nTotal - IsIn(ts[t]) + IsIn(th), ts[t := th])
    ensures nIdle - IsIdle(ts[t]) + IsIdle(th) >= 0 && nTotal - IsIn(ts[t]) + IsIn(th) >= 0
  {
    SumUpdate(ts, IsIdle, t, th);
    SumUpdate(ts, IsIn, t, th);
    SumNat(ts[t := th], IsIdle);
    SumNat(ts[t := th], IsIn);
  }

  /** A thread that gives up its batch: the checks are accounted for. */
  lemma ConservedReturn(s: State, t: nat, th: Thread)
    requires Conserved(s.queue, s.added, s.accounted, s.nTodo, s.threads) && t < |s.threads| && !th.Working?
    ensures var b := s.threads[t];
            Conserved(s.queue, s.added, s.accounted + HeldBy(b), s.nTodo - HeldCount(b), s.threads[t := th]) && s.nTodo - HeldCount(b) >= 0
  {
    hide Sum, Held, HeldBy;
    SumUpdate(s.threads, HeldCount, t, th);
    HeldUpdate(s.threads, t, th);
    SumNat(s.threads[t := th], HeldCount);
    var q, h, x := multiset(s.queue), Held(s.threads[t := th]), HeldBy(s.threads[t]);
    HeldNothing(th);
    assert h + x == Held(s.threads);
    assert q + h + (s.accounted + x) == q + (h + x) + s.accounted;
  }

  lemma HeldNothing(th: Thread)
    requires !th.Working?
    ensures HeldBy(th) == multiset{}
  {
  }

  lemma HeldBatch(b: seq<Check>, done: nat, fOk: bool)
    ensures HeldBy(Working(b, done, fOk)) == multiset(b)
  {
  }

  /** A thread that takes a batch off the queue. */
  lemma ConservedTake(s: State, t: nat, n: nat, fOk: bool)
    requires Conserved(s.queue, s.added, s.accounted, s.nTodo, s.threads) && t < |s.threads| && !s.threads[t].Working? && n <= |s.queue|
    ensures Conserved(s.queue[..|s.queue| - n], s.added, s.accounted, s.nTodo, s.threads[t := Working(Taken(s.queue, n), 0, fOk)])
  {
    hide Sum, Held, HeldBy;
    var b := Taken(s.queue, n);
    var th := Working(b, 0, fOk);
    SumUpdate(s.threads, HeldCount, t, th);
    HeldUpdate(s.threads, t, th);
    TakenChecks(s.queue, n);
    HeldNothing(s.threads[t]);
    HeldBatch(b, 0, fOk);
    var p, h := multiset(s.queue[..|s.queue| - n]), Held(s.threads);
    assert Held(s.threads[t := th]) == h + multiset(b);
    assert (p + multiset(b)) + h + s.accounted == p + (h + multiset(b)) + s.accounted;
  }

  lemma {:induction false} TakenChecks(q: seq<Check>, n: nat)
    requires n <= |q|
    ensures multiset(q) == multiset(q[..|q| - n]) + multiset(Taken(q, n))
  {
    if n == 0 {
      assert q[..|q|] == q;
    } else {
      var m := |q| - n;
      TakenChecks(q, n - 1);
      assert Taken(q, n) == Taken(q, n - 1) + [q[m]];
      assert q[..m + 1] == q[..m] + [q[m]];
    }
  }

  lemma VerdictReturn(fAllOk: bool, added: multiset<Check>, accounted: multiset<Check>, ts: seq<Thread>, t: nat)
    requires VerdictOk(fAllOk, added, accounted, ts) && t < |ts| && ts[t].Working? && ts[t].done == |ts[t].batch|
    ensures VerdictOk(fAllOk && ts[t].fOk, added, accounted + multiset(ts[t].batch), ts[t := Ready])
  {
    var b := ts[t];
    assert ThreadOk(b, added);
    forall c | c in multiset(b.batch) && b.fOk
      ensures c.ok
    {
      assert c in b.batch;
    }
  }

  lemma VerdictUpdate(fAllOk: bool, added: multiset<Check>, accounted: multiset<Check>, ts: seq<Thread>, t: nat, th: Thread)
    requires VerdictOk(fAllOk, added, accounted, ts) && t < |ts|
    requires !th.Working? || (th.batch != [] && th.done == 0 && th.fOk == fAllOk)
    ensures VerdictOk(fAllOk, added, accounted, ts[t := th])
  {
  }

  /** After the clean-up; nTodo does not underflow. */
  lemma AccountStep(s: State, t: nat)
    requires Inv(s) && Enabled(s, Enter(t))
    ensures Inside(Accounted(s, t), t)
  {
    hide Conserved, Counted, VerdictOk;
    IdleCounts(s);
    var b := s.threads[t];
    if b.Working? {
      CountedUpdate(s.nIdle, s.nTotal, s.threads, t, Ready);
      ConservedReturn(s, t, Ready);
      VerdictReturn(s.fAllOk, s.added, s.accounted, s.threads, t);
      var u := s.(fAllOk := s.fAllOk && b.fOk, nTodo := s.nTodo - |b.batch|, accounted := s.accounted + multiset(b.batch),
                  threads := s.threads[t := Ready]);
      if u.nTodo == 0 && t != MASTER {
        NotifyMaster(u);
      }
    }
  }

  lemma NotifyMaster(u: State)
    requires Conserved(u.queue, u.added, u.accounted, u.nTodo, u.threads) && Counted(u.nIdle, u.nTotal - 1, u.threads)
    requires VerdictOk(u.fAllOk, u.added, u.accounted, u.threads) && |u.threads| > 0
    ensures var ts := u.threads[MASTER := Notified(u.threads[MASTER])];
            && Conserved(u.queue, u.added, u.accounted, u.nTodo, ts) && Counted(u.nIdle, u.nTotal - 1, ts)
            && VerdictOk(u.fAllOk, u.added, u.accounted, ts)
  {
    hide Conserved, Counted, VerdictOk;
    var m := u.threads[MASTER];
    if m.Asleep? {
      CountedUpdate(u.nIdle, u.nTotal - 1, u.threads, MASTER, Notified(m));
      ConservedReturn(u, MASTER, Notified(m));
      assert u.accounted + HeldBy(m) == u.accounted;
      VerdictUpdate(u.fAllOk, u.added, u.accounted, u.threads, MASTER, Notified(m));
    } else {
      assert u.threads[MASTER := m] == u.threads;
    }
  }

  lemma WokenStep(s: State, t: nat)
    requires Inv(s) && Enabled(s, Wake(t))
    ensures Inside(Woken(s, t), t)
  {
    hide Conserved, Counted, VerdictOk;
    IdleCounts(s);
    CountedUpdate(s.nIdle, s.nTotal, s.threads, t, Ready);
    ConservedReturn(s, t, Ready);
    assert s.accounted + HeldBy(s.threads[t]) == s.accounted;
    VerdictUpdate(s.fAllOk, s.added, s.accounted, s.threads, t, Ready);
  }

  /** The rest of the critical section restores the invariant. */
  lemma ProceedStep(s: State, t: nat, nBatchSize: nat)
    requires Inside(s, t)
    ensures Inv(Proceeded(s, t, nBatchSize).0)
  {
    hide Conserved, Counted, VerdictOk, Inv;
    if s.queue == [] {
      if t == MASTER && s.nTodo == 0 {
        LeaveStep(s);
      } else {
        SleepStep(s, t);
      }
    } else {
      BatchFits(s, nBatchSize);
      TakeStep(s, t, BatchSize(s, nBatchSize));
    }
  }

  lemma SleepStep(s: State, t: nat)
    requires Inside(s, t) && s.queue == [] && !(t == MASTER && s.nTodo == 0)
    ensures Inv(s.(nIdle := s.nIdle + 1, threads := s.threads[t := Asleep(false)]))
  {
    hide Conserved, Counted, VerdictOk;
    CountedUpdate(s.nIdle, s.nTotal - 1, s.threads, t, Asleep(false));
    ConservedReturn(s, t, Asleep(false));
    assert s.accounted + HeldBy(s.threads[t]) == s.accounted;
    VerdictUpdate(s.fAllOk, s.added, s.accounted, s.threads, t, Asleep(false));
  }

  lemma TakeStep(s: State, t: nat, n: nat)
    requires Inside(s, t) && 1 <= n <= |s.queue|
    ensures Inv(s.(queue := s.queue[..|s.queue| - n], threads := s.threads[t := Working(Taken(s.queue, n), 0, s.fAllOk)]))
  {
    hide Conserved, Counted, VerdictOk;
    var th := Working(Taken(s.queue, n), 0, s.fAllOk);
    CountedUpdate(s.nIdle, s.nTotal - 1, s.threads, t, th);
    ConservedTake(s, t, n, s.fAllOk);
    VerdictUpdate(s.fAllOk, s.added, s.accounted, s.threads, t, th);
  }

  /** Nothing is left when the master leaves. */
  lemma NothingHeld(s: State)
    requires Conserved(s.queue, s.added, s.accounted, s.nTodo, s.threads) && VerdictOk(s.fAllOk, s.added, s.accounted, s.threads)
    requires s.queue == [] && s.nTodo == 0
    ensures s.added == s.accounted && Held(s.threads) == multiset{} && Sum(s.threads, HeldCount) == 0
    ensures forall t :: 0 <= t < |s.threads| ==> !s.threads[t].Working?
  {
    HeldSize(s.threads);
    forall t | 0 <= t < |s.threads|
      ensures !s.threads[t].Working?
    {
      assert ThreadOk(s.threads[t], s.added);
      SumAt(s.threads, HeldCount, t);
    }
  }

  lemma LeaveStep(s: State)
    requires Inside(s, MASTER) && s.queue == [] && s.nTodo == 0
    ensures Inv(s.(nTotal := s.nTotal - 1, fAllOk := true, threads := s.threads[MASTER := Outside], added := multiset{}, accounted := multiset{}))
    ensures s.fAllOk <==> AllTrue(s.added)
  {
    NothingHeld(s);
    CountedUpdate(s.nIdle, s.nTotal - 1, s.threads, MASTER, Outside);
    ConservedReturn(s, MASTER, Outside);
    HeldSize(s.threads[MASTER := Outside]);
    hide Sum, Held;
    assert s.threads[MASTER := Outside][MASTER] == Outside;
  }

  lemma NotifyAllKeeps(ts: seq<Thread>)
    ensures var us := NotifyAll(ts);
            && Sum(us, IsIdle) == Sum(ts, IsIdle) && Sum(us, IsIn) == Sum(ts, IsIn) && Sum(us, HeldCount) == Sum(ts, HeldCount)
            && Held(us) == Held(ts)
  {
    SumSame(NotifyAll(ts), ts, IsIdle);
    SumSame(NotifyAll(ts), ts, IsIn);
    SumSame(NotifyAll(ts), ts, HeldCount);
    HeldSame(NotifyAll(ts), ts);
  }

  lemma NotifyOneKeeps(ts: seq<Thread>, t: nat)
    ensures var us := NotifyOne(ts, t);
            && Sum(us, IsIdle) == Sum(ts, IsIdle) && Sum(us, IsIn) == Sum(ts, IsIn) && Sum(us, HeldCount) == Sum(ts, HeldCount)
            && Held(us) == Held(ts)
  {
    var us := NotifyOne(ts, t);
    SumSame(us, ts, IsIdle);
    SumSame(us, ts, IsIn);
    SumSame(us, ts, HeldCount);
    HeldSame(us, ts);
  }

  lemma MoreAdded(th: Thread, added: multiset<Check>, more: multiset<Check>)
    requires ThreadOk(th, added)
    ensures ThreadOk(th, added + more)
  {
    if th.Working? && !th.fOk {
      var c :| c in added && !c.ok;
      assert c in added + more;
    }
  }

  lemma VerdictAdded(fAllOk: bool, added: multiset<Check>, accounted: multiset<Check>, ts: seq<Thread>, us: seq<Thread>, more: multiset<Check>)
    requires VerdictOk(fAllOk, added, accounted, ts) && |us| == |ts|
    requires forall t :: 0 <= t < |ts| ==> us[t] == ts[t] || !us[t].Working?
    ensures VerdictOk(fAllOk, added + more, accounted, us)
  {
    hide ThreadOk;
    if !fAllOk {
      var c :| c in added && !c.ok;
      assert c in added + more;
    }
    forall t | 0 <= t < |us|
      ensures ThreadOk(us[t], added + more)
    {
      if us[t] == ts[t] {
        MoreAdded(ts[t], added, more);
      } else {
        NotWorking(us[t], added + more);
      }
    }
  }

  lemma NotWorking(th: Thread, added: multiset<Check>)
    requires !th.Working?
    ensures ThreadOk(th, added)
  {
  }

  lemma AddStep(s: State, checks: seq<Check>, wake: nat)
    requires Inv(s) && Enabled(s, Add(checks, wake))
    ensures Inv(Added(s, checks, wake))
  {
    hide Sum, Held, VerdictOk;
    NotifyOneKeeps(s.threads, wake);
    NotifyAllKeeps(s.threads);
    var u := Added(s, checks, wake);
    VerdictAdded(s.fAllOk, s.added, s.accounted, s.threads, u.threads, multiset(checks));
    assert multiset(s.queue + checks) == multiset(s.queue) + multiset(checks);
    var q, h, x := multiset(s.queue), Held(s.threads), multiset(checks);
    assert q + h + s.accounted + x == (q + x) + h + s.accounted;
  }

  lemma BeginStep(s: State, t: nat)
    requires Inv(s) && Enabled(s, Begin(t))
    ensures Inv(s.(threads := s.threads[t := Ready]))
  {
    hide Conserved, Counted, VerdictOk;
    CountedUpdate(s.nIdle, s.nTotal, s.threads, t, Ready);
    ConservedReturn(s, t, Ready);
    assert s.accounted + HeldBy(s.threads[t]) == s.accounted;
    VerdictUpdate(s.fAllOk, s.added, s.accounted, s.threads, t, Ready);
  }

  lemma ExecuteVerdict(s: State, t: nat)
    requires Inv(s) && Enabled(s, Execute(t))
    ensures VerdictOk(s.fAllOk, s.added, s.accounted, s.threads[t := Executed(s.threads[t])])
  {
    var th := s.threads[t];
    assert ThreadOk(th, s.added);
    if th.fOk && !th.batch[th.done].ok {
      HeldAt(s.threads, t);
      assert th.batch[th.done] in multiset(th.batch);
      assert th.batch[th.done] in Held(s.threads);
      assert SomeFalse(s.added);
    }
  }

  lemma ExecuteStep(s: State, t: nat)
    requires Inv(s) && Enabled(s, Execute(t))
    ensures Inv(s.(threads := s.threads[t := Executed(s.threads[t])]))
  {
    hide Conserved, Counted, VerdictOk;
    ExecuteVerdict(s, t);
    ExecuteKeeps(s, t);
  }

  lemma ExecuteKeeps(s: State, t: nat)
    requires Inv(s) && Enabled(s, Execute(t))
    ensures var ts := s.threads[t := Executed(s.threads[t])];
            Conserved(s.queue, s.added, s.accounted, s.nTodo, ts) && Counted(s.nIdle, s.nTotal, ts)
  {
    hide Sum, Held, VerdictOk;
    var ts := s.threads[t := Executed(s.threads[t])];
    SumSame(ts, s.threads, IsIdle);
    SumSame(ts, s.threads, IsIn);
    SumSame(ts, s.threads, HeldCount);
    HeldSame(ts, s.threads);
  }

  /** Every step keeps the invariant. */
  lemma StepKeeps(s: State, step: Step, nBatchSize: nat)
    requires Inv(s) && Enabled(s, step)
    ensures Inv(Next(s, step, nBatchSize).0)
  {
    hide Inv, Inside, Proceeded;
    match step
    case Add(checks, wake) => AddStep(s, checks, wake);
    case Begin(t) => BeginStep(s, t);
    case Execute(t) => ExecuteStep(s, t);
    case Enter(t) =>
      AccountStep(s, t);
      ProceedStep(Accounted(s, t), t, nBatchSize);
    case Wake(t) =>
      WokenStep(s, t);
      ProceedStep(Woken(s, t), t, nBatchSize);
  }

  // ---- what Wait answers ----

  /** Wait answers only when nothing is left to do, and then exactly whether all checks added were true. */
  lemma WaitAnswer(s: State, step: Step, nBatchSize: nat)
    requires Inv(s) && Enabled(s, step) && Next(s, step, nBatchSize).1.Some?
    ensures var (u, answer) := Next(s, step, nBatchSize);
            && (answer.value <==> AllTrue(s.added))
            && u.queue == [] && u.nTodo == 0 && u.added == multiset{} && !step.Add?
            && (forall t :: 0 <= t < |u.threads| ==> !u.threads[t].Working?)
  {
    hide Conserved, Counted, VerdictOk;
    match step {
      case Enter(t) =>
        AccountStep(s, t);
        LeaveStep(Accounted(s, t));
        NothingHeld(Accounted(s, t));
      case Wake(t) =>
        WokenStep(s, t);
        LeaveStep(Woken(s, t));
        NothingHeld(Woken(s, t));
      case _ =>
    }
  }

  /** A run from the start: the state after it, provided that every step is possible in its turn. */
  ghost predicate Possible(threads: nat, nBatchSize: nat, steps: seq<Step>)
    decreases |steps|, 0
  {
    steps == [] || (Possible(threads, nBatchSize, steps[..|steps| - 1])
                    && Enabled(After(threads, nBatchSize, steps[..|steps| - 1]), steps[|steps| - 1]))
  }

  ghost function After(threads: nat, nBatchSize: nat, steps: seq<Step>): (s: State)
    requires Possible(threads, nBatchSize, steps)
    ensures Inv(s)
    decreases |steps|, 1
  {
    if steps == [] then InitialOk(threads); Initial(threads)
    else
      var s := After(threads, nBatchSize, steps[..|steps| - 1]);
      StepKeeps(s, steps[|steps| - 1], nBatchSize);
      Next(s, steps[|steps| - 1], nBatchSize).0
  }

  /** What the last step of a run answered, if it made Wait return. */
  ghost function Answer(threads: nat, nBatchSize: nat, steps: seq<Step>): Option<bool>
    requires Possible(threads, nBatchSize, steps)
  {
    if steps == [] then None else Next(After(threads, nBatchSize, steps[..|steps| - 1]), steps[|steps| - 1], nBatchSize).1
  }

  /** The checks added in a run since Wait last returned. */
  ghost function Since(threads: nat, nBatchSize: nat, steps: seq<Step>): multiset<Check>
    requires Possible(threads, nBatchSize, steps)
  {
    if steps == [] || Answer(threads, nBatchSize, steps).Some? then multiset{}
    else
      var last := steps[|steps| - 1];
      Since(threads, nBatchSize, steps[..|steps| - 1]) + if last.Add? then multiset(last.checks) else multiset{}
  }

  lemma AddedBy(s: State, step: Step, nBatchSize: nat)
    requires Inv(s) && Enabled(s, step)
    ensures var (u, answer) := Next(s, step, nBatchSize);
            u.added == if answer.Some? then multiset{} else if step.Add? then s.added + multiset(step.checks) else s.added
  {
    hide Inv;
    match step {
      case Enter(t) => AccountStep(s, t);
      case Wake(t) => WokenStep(s, t);
      case _ =>
    }
  }

  lemma {:induction false} SinceIsAdded(threads: nat, nBatchSize: nat, steps: seq<Step>)
    requires Possible(threads, nBatchSize, steps)
    ensures After(threads, nBatchSize, steps).added == Since(threads, nBatchSize, steps)
  {
    hide Inv, Next;
    if steps != [] {
      var p := steps[..|steps| - 1];
      SinceIsAdded(threads, nBatchSize, p);
      AddedBy(After(threads, nBatchSize, p), steps[|steps| - 1], nBatchSize);
    } else {
      InitialOk(threads);
    }
  }

  /** In every run, when Wait returns, nothing is left, and it returns true exactly when every check added since the last Wait is true. */
  lemma WaitCorrect(threads: nat, nBatchSize: nat, steps: seq<Step>)
    requires Possible(threads, nBatchSize, steps) && steps != [] && Answer(threads, nBatchSize, steps).Some?
    ensures Answer(threads, nBatchSize, steps).value <==> AllTrue(Since(threads, nBatchSize, steps[..|steps| - 1]))
    ensures var s := After(threads, nBatchSize, steps);
            s.queue == [] && s.nTodo == 0 && forall t :: 0 <= t < |s.threads| ==> !s.threads[t].Working?
  {
    var p := steps[..|steps| - 1];
    hide Inv, Next;
    SinceIsAdded(threads, nBatchSize, p);
    WaitAnswer(After(threads, nBatchSize, p), steps[|steps| - 1], nBatchSize);
  }

  // ---- nobody waits forever ----

  /** The master sleeps unnotified only while some worker holds a batch. */
  lemma MasterWaits(s: State) returns (t: nat)
    requires Inv(s) && s.threads[MASTER] == Asleep(false)
    ensures t < |s.threads| && t != MASTER && s.threads[t].Working?
  {
    t := SumPositive(s.threads, HeldCount);
  }

  /** A step within Loop. */
  predicate Move(step: Step) {
    step.Execute? || step.Enter? || step.Wake?
  }

  predicate Spurious(s: State, step: Step) {
    step.Wake? && step.t < |s.threads| && s.threads[step.t] == Asleep(false)
  }

  /** No deadlock: while the master is in Wait, some thread can go on without a spurious wake-up. */
  lemma Progress(s: State) returns (step: Step)
    requires Inv(s) && !s.threads[MASTER].Outside?
    ensures Move(step) && Enabled(s, step) && !Spurious(s, step)
  {
    var t := MASTER;
    if s.threads[MASTER] == Asleep(false) {
      t := MasterWaits(s);
    }
    assert ThreadOk(s.threads[t], s.added);
    if s.threads[t].Asleep? {
      step := Wake(t);
    } else if s.threads[t].Working? && s.threads[t].done < |s.threads[t].batch| {
      step := Execute(t);
    } else {
      step := Enter(t);
    }
  }

  function Weight(th: Thread): int {
    match th
    case Outside => 0
    case Ready => 1
    case Asleep(notified) => if notified then 1 else 0
    case Working(batch, done, _) => if done <= |batch| then |batch| - done + 2 else 2
  }

  /** Bounds the steps that the threads can still take in Loop. */
  ghost function Potential(s: State): int {
    4 * |s.queue| + Sum(s.threads, Weight)
  }

  lemma ProceedPotential(s: State, t: nat, nBatchSize: nat)
    requires Inside(s, t)
    ensures Potential(Proceeded(s, t, nBatchSize).0) <= Potential(s) - 1
    ensures s.queue != [] ==> Potential(Proceeded(s, t, nBatchSize).0) <= Potential(s) - 2
  {
    hide Sum, Conserved, Counted, VerdictOk;
    var u := Proceeded(s, t, nBatchSize).0;
    SumUpdate(s.threads, Weight, t, u.threads[t]);
    if s.queue != [] {
      BatchFits(s, nBatchSize);
    }
  }

  lemma AccountPotential(s: State, t: nat)
    requires Inv(s) && Enabled(s, Enter(t))
    ensures Potential(Accounted(s, t)) <= Potential(s)
  {
    hide Sum, Conserved, Counted, VerdictOk;
    if s.threads[t].Working? {
      SumUpdate(s.threads, Weight, t, Ready);
      var ts := s.threads[t := Ready];
      SumUpdate(ts, Weight, MASTER, Notified(ts[MASTER]));
    }
  }

  lemma WokenPotential(s: State, t: nat)
    requires Inv(s) && Enabled(s, Wake(t))
    ensures Potential(Woken(s, t)) == Potential(s) + if s.threads[t].notified then 0 else 1
  {
    SumUpdate(s.threads, Weight, t, Ready);
  }

  /** Every step within Loop uses up potential; only a spurious wake-up may leave it as it is. */
  lemma MoveDecreases(s: State, step: Step, nBatchSize: nat)
    requires Inv(s) && Enabled(s, step) && Move(step)
    ensures Potential(Next(s, step, nBatchSize).0) <= Potential(s) - if Spurious(s, step) then 0 else 1
  {
    hide Inv, Inside, Potential, Proceeded;
    match step {
      case Execute(t) => ExecutePotential(s, t);
      case Enter(t) =>
        AccountStep(s, t);
        AccountPotential(s, t);
        ProceedPotential(Accounted(s, t), t, nBatchSize);
      case Wake(t) =>
        WokenStep(s, t);
        WokenPotential(s, t);
        ProceedPotential(Woken(s, t), t, nBatchSize);
    }
  }

  lemma ExecutePotential(s: State, t: nat)
    requires Inv(s) && Enabled(s, Execute(t))
    ensures Potential(s.(threads := s.threads[t := Executed(s.threads[t])])) == Potential(s) - 1
  {
    hide Sum;
    SumUpdate(s.threads, Weight, t, Executed(s.threads[t]));
  }

  /** How many of the last n steps of a run were not spurious wake-ups. */
  ghost function Real(threads: nat, nBatchSize: nat, steps: seq<Step>, n: nat): nat
    requires Possible(threads, nBatchSize, steps) && n <= |steps|
  {
    if n == 0 then 0 else
      var p, last := steps[..|steps| - 1], steps[|steps| - 1];
      Real(threads, nBatchSize, p, n - 1) + if Spurious(After(threads, nBatchSize, p), last) then 0 else 1
  }

  lemma {:induction false} RealBounded(threads: nat, nBatchSize: nat, steps: seq<Step>, n: nat)
    requires Possible(threads, nBatchSize, steps) && n <= |steps| && forall i :: |steps| - n <= i < |steps| ==> Move(steps[i])
    ensures Possible(threads, nBatchSize, steps[..|steps| - n])
    ensures Real(threads, nBatchSize, steps, n) + Potential(After(threads, nBatchSize, steps))
            <= Potential(After(threads, nBatchSize, steps[..|steps| - n]))
  {
    hide Inv, Potential, Next;
    if n == 0 {
      assert steps[..|steps|] == steps;
    } else {
      var p := steps[..|steps| - 1];
      RealBounded(threads, nBatchSize, p, n - 1);
      assert p[..|p| - (n - 1)] == steps[..|steps| - n];
      MoveDecreases(After(threads, nBatchSize, p), steps[|steps| - 1], nBatchSize);
    }
  }

  /**
   * Wait always returns: in any stretch of a run in which the threads only move within Loop, all but boundedly many
   * steps are spurious wake-ups; and as long as the master has not left, some thread has a real step to take.
   */
  lemma WaitReturns(threads: nat, nBatchSize: nat, steps: seq<Step>, n: nat)
    requires Possible(threads, nBatchSize, steps) && n <= |steps| && forall i :: |steps| - n <= i < |steps| ==> Move(steps[i])
    ensures Possible(threads, nBatchSize, steps[..|steps| - n])
    ensures Real(threads, nBatchSize, steps, n) <= Potential(After(threads, nBatchSize, steps[..|steps| - n]))
    ensures var s := After(threads, nBatchSize, steps);
            s.threads[MASTER].Outside? || exists step :: Move(step) && Enabled(s, step) && !Spurious(s, step)
  {
    RealBounded(threads, nBatchSize, steps, n);
    var s := After(threads, nBatchSize, steps);
    SumNat(s.threads, Weight);
    if !s.threads[MASTER].Outside? {
      var step := Progress(s);
    }
  }
}
