/**
 * The dispatch loops of `main`, step by step on local variables as the
 * program runs them: a first loop that forks while the pool has room and
 * items are left, and a second loop that waits for a child, counts it if it
 * is tracked, and forks its replacement if items are left. The results of
 * `fork` and `wait` are read, in the order the program asks for them, from
 * `answers`; when they run out the dispatcher still waits for the result of that call.
 */
module Dispatcher {
  import opened PoolMachine

  /**
   * Runs the dispatcher for `total` items. The final state is the one the
   * state machine reaches on the same answers, so every property proved of
   * `Run` holds of it.
   */
  method Dispatch(total: nat, answers: seq<int>) returns (m: Machine)
    ensures m == Run(Start(total), answers)
  {
    var next, completed := 0, 0;
    var running: map<int, nat> := map[];
    var started: seq<nat>, reaped: seq<nat> := [], [];
    var k := 0;  // answers read so far
    ghost var hist := [Start(total)];  // the machine after each answer read

    while |running| < NumProcess && next < total
      invariant Follows(Start(total), answers, k, hist)
      invariant var p := Pool(total, next, completed, running, started, reaped);
                hist[k] == Machine(Settle(p), p)
    {
      if k == |answers| {
        m := Machine(Filling, Pool(total, next, completed, running, started, reaped));
        Finish(Start(total), answers, k, hist);
        return;
      }
      var pid := answers[k];
      hist := Read(Start(total), answers, k, hist);
      k := k + 1;
      if pid > 0 {
        running := running[pid := next];
        started := started + [next];
        next := next + 1;
      } else {
        m := Machine(Aborted, Pool(total, next, completed, running, started, reaped));
        Finish(Start(total), answers, k, hist);
        return;
      }
    }

    while completed < total
      invariant Follows(Start(total), answers, k, hist)
      invariant var p := Pool(total, next, completed, running, started, reaped);
                hist[k] == Machine(Drained(p), p)
      decreases |answers| - k
    {
      if k == |answers| {
        m := Machine(Waiting, Pool(total, next, completed, running, started, reaped));
        Finish(Start(total), answers, k, hist);
        return;
      }
      var waited := answers[k];
      hist := Read(Start(total), answers, k, hist);
      k := k + 1;
      if waited > 0 && waited in running {
        var index := running[waited];
        completed := completed + 1;
        reaped := reaped + [index];
        running := running - {waited};
        if next < total {
          if k == |answers| {
            m := Machine(Refilling, Pool(total, next, completed, running, started, reaped));
            Finish(Start(total), answers, k, hist);
            return;
          }
          var pid := answers[k];
          hist := Read(Start(total), answers, k, hist);
          k := k + 1;
          if pid > 0 {
            running := running[pid := next];
            started := started + [next];
            next := next + 1;
          } else {
            m := Machine(Aborted, Pool(total, next, completed, running, started, reaped));
            Finish(Start(total), answers, k, hist);
            return;
          }
        }
      }
    }
    m := Machine(Done, Pool(total, next, completed, running, started, reaped));
    Finish(Start(total), answers, k, hist);
  }

  /** `hist` lists the machines `m0` passes through on the first `k` answers. */
  ghost predicate Follows(m0: Machine, answers: seq<int>, k: nat, hist: seq<Machine>) {
    && k <= |answers| && |hist| == k + 1 && hist[0] == m0
    && forall i | 0 <= i < k :: hist[i + 1] == Step(hist[i], answers[i])
  }

  /** The last machine of the history is the one `Run` reaches. */
  lemma {:induction false} FollowsRun(m0: Machine, answers: seq<int>, k: nat, hist: seq<Machine>)
    requires Follows(m0, answers, k, hist)
    ensures hist[k] == Run(m0, answers[..k])
    decreases k
  {
    if k > 0 {
      assert Follows(m0, answers, k - 1, hist[..k]);
      FollowsRun(m0, answers, k - 1, hist[..k]);
      RunPrefix(m0, answers, k - 1);
    }
  }

  /** Reading answer `k` extends the history by one machine. */
  ghost function Read(m0: Machine, answers: seq<int>, k: nat, hist: seq<Machine>): (r: seq<Machine>)
    requires k < |answers| && Follows(m0, answers, k, hist)
    ensures Follows(m0, answers, k + 1, r) && r[k + 1] == Step(hist[k], answers[k])
  {
    hist + [Step(hist[k], answers[k])]
  }

  /**
   * Where the dispatcher stops, because the answers ran out or the machine
   * has ended, its state is the one `Run` reaches on all the answers.
   */
  lemma Finish(m0: Machine, answers: seq<int>, k: nat, hist: seq<Machine>)
    requires Follows(m0, answers, k, hist)
    requires k == |answers| || !Active(hist[k])
    ensures hist[k] == Run(m0, answers)
  {
    FollowsRun(m0, answers, k, hist);
    RunStopped(m0, answers, k);
  }

  /** Answers after the run has ended change nothing. */
  lemma RunStopped(m0: Machine, answers: seq<int>, k: nat)
    requires k <= |answers|
    requires k == |answers| || !Active(Run(m0, answers[..k]))
    ensures Run(m0, answers) == Run(m0, answers[..k])
  {
    var mk := Run(m0, answers[..k]);
    RunConcat(m0, answers[..k], answers[k..]);
    assert answers[..k] + answers[k..] == answers;
    if k < |answers| {
      RunEnded(mk, answers[k..]);
    }
  }
}
