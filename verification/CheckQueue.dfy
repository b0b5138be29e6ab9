/** The check queue's critical sections, updating the shared fields in place. */
module CheckQueue {
  import opened CheckQueueSpec
  import opened Wrappers

  class CCheckQueue {
    var queue: seq<Check>
    var nIdle: int
    var nTotal: int
    var fAllOk: bool
    var nTodo: int
    const nBatchSize: nat

    ghost function View(): Shared
      reads this
    {
      Shared(queue, nIdle, nTotal, fAllOk, nTodo, nBatchSize)
    }

    constructor (nBatchSizeIn: nat)
      ensures View() == Init(nBatchSizeIn, 0).sh
    {
      queue, nIdle, nTotal, fAllOk, nTodo, nBatchSize := [], 0, 0, true, 0, nBatchSizeIn;
    }

    /** The master's critical section in `Add`. */
    method Add(vChecks: seq<Check>)
      modifies this
      ensures View() == old(View()).(queue := old(queue) + vChecks, nTodo := old(nTodo) + |vChecks|)
    {
      for i := 0 to |vChecks|
        invariant View() == old(View()).(queue := old(queue) + vChecks[..i])
      {
        assert vChecks[..i + 1] == vChecks[..i] + [vChecks[i]];
        queue := queue + [vChecks[i]];
      }
      assert vChecks[..|vChecks|] == vChecks;
      nTodo := nTodo + |vChecks|;
    }

    /** From the test of the queue until the mutex is released by a return, a wait or a batch to execute. */
    method Continue(fMaster: bool) returns (o: Outcome)
      requires nTotal >= 0 && nIdle >= 0
      modifies this
      ensures (View(), o) == Proceed(old(View()), fMaster)
    {
      if queue == [] {
        if fMaster && nTodo == 0 {
          nTotal := nTotal - 1;
          var fRet := fAllOk;
          fAllOk := true;
          return Return(fRet);
        }
        nIdle := nIdle + 1;
        return Wait;
      }
      var nNow := Max(1, Min(nBatchSize, |queue| / (nTotal + nIdle + 1)));
      assert nNow == BatchSize(View());
      var vChecks := [];
      for i := 0 to nNow
        invariant |queue| == old(|queue|) - i && queue == old(queue)[..|queue|]
        invariant View() == old(View()).(queue := queue)
        invariant |vChecks| == i && forall j | 0 <= j < i :: vChecks[j] == old(queue)[old(|queue|) - 1 - j]
      {
        vChecks := vChecks + [queue[|queue| - 1]];
        queue := queue[..|queue| - 1];
      }
      assert vChecks == LastOf(old(queue), nNow);
      return Work(vChecks, fAllOk);
    }

    /** One turn with the mutex: account for the batch just executed, or for a first arrival, and go on.
        Also tells whether the waiting master is to be notified. */
    method Turn(fMaster: bool, nNow: nat, fOk: bool) returns (o: Outcome, notify: bool)
      requires nTotal >= 0 && nIdle >= 0
      modifies this
      ensures var sh := if nNow != 0 then Finished(old(View()), nNow, fOk) else old(View()).(nTotal := old(nTotal) + 1);
              (View(), o) == Proceed(sh, fMaster) && notify == (nNow != 0 && sh.nTodo == 0 && !fMaster)
    {
      notify := false;
      if nNow != 0 {
        fAllOk := fAllOk && fOk;
        nTodo := nTodo - nNow;
        if nTodo == 0 && !fMaster {
          notify := true;
        }
      } else {
        nTotal := nTotal + 1;
      }
      o := Continue(fMaster);
    }

    /** A turn with the mutex that resumes after a wait. */
    method Resume(fMaster: bool) returns (o: Outcome)
      requires nTotal >= 0 && nIdle >= 1
      modifies this
      ensures (View(), o) == Proceed(old(View()).(nIdle := old(nIdle) - 1), fMaster)
    {
      nIdle := nIdle - 1;
      o := Continue(fMaster);
    }
  }

  /** Executes a batch outside the mutex; after a failure the rest is skipped. */
  method ExecuteBatch(vChecks: seq<Check>, fOkIn: bool) returns (fOk: bool)
    ensures fOk <==> fOkIn && forall i | 0 <= i < |vChecks| :: vChecks[i].passes
  {
    fOk := fOkIn;
    for i := 0 to |vChecks|
      invariant fOk <==> fOkIn && forall j | 0 <= j < i :: vChecks[j].passes
    {
      if fOk {
        fOk := vChecks[i].passes;
      }
    }
  }
}
