/** The critical sections of CCheckQueue (src/checkqueue.h), proved against the state machine. */
module CheckQueueLoop {
  import opened Common
  import opened CheckQueue

  class CCheckQueue {
    var queue: seq<Check>
    var nIdle: int
    var nTotal: int
    var fAllOk: bool
    var nTodo: int
    const nBatchSize: nat
    /** Where each thread is, with its local variables vChecks and fOk. */
    var threads: seq<Thread>
    /** The checks added, and those accounted for, since Wait last returned. */
    ghost var added: multiset<Check>
    ghost var accounted: multiset<Check>

    ghost function St(): State
      reads this
    {
      State(queue, nIdle, nTotal, fAllOk, nTodo, threads, added, accounted)
    }

    constructor (nBatchSize: nat, workers: nat)
      ensures St() == Initial(workers) && Inv(St()) && this.nBatchSize == nBatchSize
    {
      this.nBatchSize := nBatchSize;
      queue, nIdle, nTotal, fAllOk, nTodo := [], 0, 0, true, 0;
      threads := seq(workers + 1, _ => Outside);
      added, accounted := multiset{}, multiset{};
      InitialOk(workers);
    }

    /** CCheckQueue::Add; wake is the worker that notify_one picks */
    method AddChecks(vChecks: seq<Check>, wake: nat)
      requires Inv(St()) && Enabled(St(), Add(vChecks, wake))
      modifies this
      ensures St() == Added(old(St()), vChecks, wake)
    {
      hide Inv;
      for i := 0 to |vChecks|
        invariant queue == old(queue) + vChecks[..i]
        invariant St() == old(St()).(queue := queue)
      {
        queue := queue + [vChecks[i]];
      }
      assert vChecks[..|vChecks|] == vChecks;
      nTodo := nTodo + |vChecks|;
      added := added + multiset(vChecks);
      if |vChecks| == 1 {
        threads := NotifyOne(threads, wake);
      } else if |vChecks| > 1 {
        threads := NotifyAll(threads);
      }
    }

    /** The clean-up at the top of the critical section of Loop. */
    method CleanUp(t: nat)
      requires Inv(St()) && Enabled(St(), Enter(t))
      modifies this
      ensures St() == Accounted(old(St()), t)
    {
      hide Inv;
      HasMaster(St());
      var me := threads[t];
      if me.Working? {
        var nNow := |me.batch|;
        fAllOk := fAllOk && me.fOk;
        nTodo := nTodo - nNow;
        accounted := accounted + multiset(me.batch);
        var ts := threads[t := Ready];
        var notify := nTodo == 0 && t != MASTER;
        threads := if notify then ts[MASTER := Notified(ts[MASTER])] else ts;
      } else {
        nTotal := nTotal + 1;
      }
    }

    /** The rest of the critical section: leave, sleep or take a batch. */
    method Proceed(t: nat) returns (answer: Option<bool>)
      requires Inside(St(), t)
      modifies this
      ensures (St(), answer) == Proceeded(old(St()), t, nBatchSize)
    {
      hide Conserved, Counted, VerdictOk;
      answer := None;
      if queue == [] {
        if t == MASTER && nTodo == 0 {
          nTotal := nTotal - 1;
          answer := Some(fAllOk);
          fAllOk := true;
          threads := threads[t := Outside];
          added, accounted := multiset{}, multiset{};
        } else {
          nIdle := nIdle + 1;
          threads := threads[t := Asleep(false)];
        }
      } else {
        BatchFits(St(), nBatchSize);
        var share := |queue| / (nTotal + nIdle + 1);
        var nNow := Max(1, Min(nBatchSize, share));
        var vChecks := PopBatch(nNow);
        threads := threads[t := Working(vChecks, 0, fAllOk)];
      }
    }

    /** Jobs move from the back of the queue to the local batch. */
    method PopBatch(nNow: nat) returns (vChecks: seq<Check>)
      requires nNow <= |queue|
      modifies this`queue
      ensures vChecks == Taken(old(queue), nNow) && queue == old(queue[..|queue| - nNow])
    {
      vChecks := [];
      for i := 0 to nNow
        invariant queue == old(queue)[..|old(queue)| - i] && vChecks == Taken(old(queue), i)
      {
        vChecks := vChecks + [queue[|queue| - 1]];
        queue := queue[..|queue| - 1];
      }
    }

    /** One step of one thread. */
    method Advance(step: Step) returns (answer: Option<bool>)
      requires Inv(St()) && Enabled(St(), step)
      modifies this
      ensures Inv(old(St())) && (St(), answer) == Next(old(St()), step, nBatchSize) && Inv(St())
    {
      hide Inv, Inside, Proceeded, Accounted;
      StepKeeps(St(), step, nBatchSize);
      answer := None;
      match step {
        case Add(checks, wake) => AddChecks(checks, wake);
        case Begin(t) => threads := threads[t := Ready];
        case Execute(t) =>
          var th := threads[t];
          threads := threads[t := th.(done := th.done + 1, fOk := if th.fOk then th.batch[th.done].ok else th.fOk)];
        case Enter(t) =>
          AccountStep(St(), t);
          CleanUp(t);
          answer := Proceed(t);
        case Wake(t) =>
          WokenStep(St(), t);
          nIdle := nIdle - 1;
          threads := threads[t := Ready];
          answer := Proceed(t);
      }
    }
  }

  function Max(a: int, b: int): int {
    if a < b then b else a
  }

  function Min(a: int, b: int): int {
    if b < a then b else a
  }

  lemma HasMaster(s: State)
    requires Inv(s)
    ensures |s.threads| > 0
  {
  }

  /** What the step number i of a run answers. */
  ghost predicate AnswersTo(workers: nat, nBatchSize: nat, steps: seq<Step>, i: nat, answer: Option<bool>)
    requires i < |steps|
  {
    Possible(workers, nBatchSize, steps[..i + 1]) && answer == Answer(workers, nBatchSize, steps[..i + 1])
  }

  /** Any interleaving: the queue goes through exactly the states of the state machine and gives its answers. */
  method Interleave(workers: nat, nBatchSize: nat, steps: seq<Step>) returns (answers: seq<Option<bool>>, q: CCheckQueue)
    requires Possible(workers, nBatchSize, steps)
    ensures q.St() == After(workers, nBatchSize, steps) && |answers| == |steps|
    ensures forall i :: 0 <= i < |steps| ==> AnswersTo(workers, nBatchSize, steps, i, answers[i])
  {
    hide Inv, Next, Enabled;
    q := new CCheckQueue(nBatchSize, workers);
    answers := [];
    PossiblePrefix(workers, nBatchSize, steps, 0);
    for i := 0 to |steps|
      invariant fresh(q) && q.nBatchSize == nBatchSize && |answers| == i
      invariant Possible(workers, nBatchSize, steps[..i]) && q.St() == After(workers, nBatchSize, steps[..i])
      invariant forall j :: 0 <= j < i ==> AnswersTo(workers, nBatchSize, steps, j, answers[j])
    {
      PossiblePrefix(workers, nBatchSize, steps, i + 1);
      assert steps[..i + 1][..i] == steps[..i];
      var answer := q.Advance(steps[i]);
      answers := answers + [answer];
    }
    assert steps[..|steps|] == steps;
  }

  lemma {:induction false} PossiblePrefix(workers: nat, nBatchSize: nat, steps: seq<Step>, n: nat)
    requires Possible(workers, nBatchSize, steps) && n <= |steps|
    ensures Possible(workers, nBatchSize, steps[..n])
  {
    hide Inv, Next, Enabled;
    if n < |steps| {
      PossiblePrefix(workers, nBatchSize, steps[..|steps| - 1], n);
      assert steps[..|steps| - 1][..n] == steps[..n];
    } else {
      assert steps[..n] == steps;
    }
  }
}
