/**
 * The dispatcher of `main` as a small-step state machine. Its state is the
 * bookkeeping `main` keeps (next_image_index, completed_count,
 * running_processes) and the phase of its two loops. Every step consumes one
 * answer of the operating system: the pid that `fork` returns for a launch,
 * or the pid that `wait` returns in the drain loop. The machine is the
 * specification the imperative dispatcher is proved against.
 */
module PoolMachine {
  import opened Wrappers

  /** NUM_PROCESS: the number of downloads run in parallel. */
  const NumProcess: nat := 5

  /** 0, 1, ..., n - 1. */
  function Iota(n: nat): (r: seq<nat>)
    ensures |r| == n && forall i | 0 <= i < n :: r[i] == i
  {
    if n == 0 then [] else Iota(n - 1) + [n - 1]
  }

  /**
   * The dispatcher's bookkeeping. `started` lists the items in the order they
   * were launched (one "Started downloading" line each) and `reaped` the item
   * of each tracked completion in the order they were reported.
   */
  datatype Pool = Pool(
    total: nat,               // NUM_IMAGES
    next: nat,                // next_image_index: the next item to launch
    completed: nat,           // completed_count
    running: map<int, nat>,   // running_processes: pid -> item index
    started: seq<nat>,
    reaped: seq<nat>)

  /**
   * Filling: in the first loop, about to fork. Waiting: in the second loop,
   * about to wait. Refilling: a tracked child just finished and a replacement
   * is about to be forked. Done: all downloads completed (exit 0). Aborted: a
   * fork failed (exit 1).
   */
  datatype Phase = Filling | Waiting | Refilling | Done | Aborted

  datatype Machine = Machine(phase: Phase, pool: Pool)

  /** Whether the machine still expects an answer of the operating system. */
  predicate Active(m: Machine) {
    m.phase == Filling || m.phase == Waiting || m.phase == Refilling
  }

  /** The condition of the second loop: wait while not every item has completed. */
  function Drained(p: Pool): (r: Phase) {
    if p.completed < p.total then Waiting else Done
  }

  /** The condition of the first loop: launch while there is room and an item is left. */
  function Settle(p: Pool): (r: Phase) {
    if |p.running| < NumProcess && p.next < p.total then Filling else Drained(p)
  }

  /** The state before the first loop for a list of `total` items. */
  function Start(total: nat): (r: Machine) {
    var p := Pool(total, 0, 0, map[], [], []);
    Machine(Settle(p), p)
  }

  /** The parent's side of a successful fork: item `next` now runs as `pid`. */
  function Launch(p: Pool, pid: int): (q: Pool) {
    p.(running := p.running[pid := p.next], next := p.next + 1, started := p.started + [p.next])
  }

  /** A tracked child finished: count it and forget its pid. */
  function Reap(p: Pool, pid: int): (q: Pool)
    requires pid in p.running
  {
    p.(completed := p.completed + 1, running := p.running - {pid}, reaped := p.reaped + [p.running[pid]])
  }

  /**
   * One answer of the operating system. In a launching phase it is the fork
   * result: a positive pid, or a failure that ends the run (the 0 of the child
   * branch is never seen by the parent). In the waiting phase it is the wait
   * result; one that is not positive or not a tracked pid is ignored.
   */
  function Step(m: Machine, answer: int): (r: Machine) {
    match m.phase
    case Filling =>
      if answer > 0 then var p := Launch(m.pool, answer); Machine(Settle(p), p)
      else Machine(Aborted, m.pool)
    case Waiting =>
      if answer > 0 && answer in m.pool.running then
        var p := Reap(m.pool, answer);
        Machine(if p.next < p.total then Refilling else Drained(p), p)
      else m
    case Refilling =>
      if answer > 0 then var p := Launch(m.pool, answer); Machine(Drained(p), p)
      else Machine(Aborted, m.pool)
    case Done => m
    case Aborted => m
  }

  /** The machine after the answers, in order; answers after the run has ended are not read. */
  function Run(m: Machine, answers: seq<int>): (r: Machine)
    decreases |answers|
  {
    if answers == [] then m
    else Step(Run(m, answers[..|answers| - 1]), answers[|answers| - 1])
  }

  /** The answers so far and then one more. */
  lemma RunSnoc(m: Machine, answers: seq<int>, a: int)
    ensures Run(m, answers + [a]) == Step(Run(m, answers), a)
  {
    assert (answers + [a])[..|answers|] == answers;
  }

  /** The first k + 1 answers are the first k and then answer k. */
  lemma RunPrefix(m: Machine, answers: seq<int>, k: nat)
    requires k < |answers|
    ensures Run(m, answers[..k + 1]) == Step(Run(m, answers[..k]), answers[k])
  {
    assert answers[..k + 1] == answers[..k] + [answers[k]];
    RunSnoc(m, answers[..k], answers[k]);
  }

  /** `main`'s return value once the run has ended. */
  function ExitCode(m: Machine): (r: Option<int>)
    ensures r.Some? <==> !Active(m)
    ensures r == Some(0) <==> m.phase == Done
    ensures r == Some(1) <==> m.phase == Aborted
  {
    match m.phase
    case Done => Some(0)
    case Aborted => Some(1)
    case _ => None
  }

  // ---------------------------------------------------------------------------
  // What the operating system guarantees, and the invariants it buys

  /** A pid returned by a successful fork is not one of the live children. */
  ghost predicate Plausible(m: Machine, answer: int) {
    (m.phase == Filling || m.phase == Refilling) && answer > 0 ==> answer !in m.pool.running
  }

  /** Every answer of the trace is plausible in the state it is given in. */
  ghost predicate PlausibleTrace(m: Machine, answers: seq<int>) {
    forall k | 0 <= k < |answers| :: Plausible(Run(m, answers[..k]), answers[k])
  }

  /**
   * The bookkeeping invariant: the pool never holds more than NumProcess
   * children; every launched item is either running or completed, never both;
   * items were launched in list order; pids are positive and map to distinct
   * items; each item completed at most once.
   */
  ghost predicate Valid(p: Pool) {
    && p.next <= p.total
    && |p.running| <= NumProcess
    && p.completed + |p.running| == p.next
    && p.started == Iota(p.next)
    && |p.reaped| == p.completed
    && (forall pid | pid in p.running :: pid > 0 && p.running[pid] < p.next)
    && (forall pid, pid' | pid in p.running && pid' in p.running && pid != pid' :: p.running[pid] != p.running[pid'])
    && (forall i, j | 0 <= i < j < |p.reaped| :: p.reaped[i] != p.reaped[j])
    && (forall i | 0 <= i < |p.reaped| :: p.reaped[i] < p.next)
    && (forall i: nat | i < p.next :: Runs(p.running, i) <==> i !in p.reaped)
  }

  /** Valid bookkeeping, and the loop conditions that hold in each phase. */
  ghost predicate Inv(m: Machine) {
    var p := m.pool;
    && Valid(p)
    && match m.phase
       case Filling => |p.running| < NumProcess && p.next < p.total
       case Waiting => p.completed < p.total && (|p.running| == NumProcess || p.next == p.total)
       case Refilling => |p.running| == NumProcess - 1 && p.next < p.total
       case Done => p.completed == p.total
       case Aborted => p.next < p.total
  }

  lemma StartInv(total: nat)
    ensures Inv(Start(total))
    ensures Start(total).phase == (if total == 0 then Done else Filling)
  {
  }

  /** Some child in `m` downloads item `i`. */
  ghost predicate Runs(m: map<int, nat>, i: nat) {
    exists pid | pid in m :: m[pid] == i
  }

  /** A pid under which `m` holds the item `v`. */
  lemma KeyOf(m: map<int, nat>, v: nat) returns (k: int)
    requires Runs(m, v)
    ensures k in m && m[k] == v
  {
    k :| k in m && m[k] == v;
  }

  lemma {:induction false} LaunchValid(p: Pool, pid: int)
    requires Valid(p) && p.next < p.total && |p.running| < NumProcess
    requires pid > 0 && pid !in p.running
    ensures Valid(Launch(p, pid))
    ensures |Launch(p, pid).running| == |p.running| + 1
  {
    var q := Launch(p, pid);
    forall i: nat | i < q.next ensures Runs(q.running, i) <==> i !in q.reaped {
      if i == p.next {
        assert q.running[pid] == i;
      } else {
        if Runs(p.running, i) {
          var k := KeyOf(p.running, i);
          assert q.running[k] == i;
        }
        if Runs(q.running, i) {
          var k := KeyOf(q.running, i);
          assert k != pid && p.running[k] == i;
        }
      }
    }
  }

  lemma {:induction false} ReapValid(p: Pool, pid: int)
    requires Valid(p) && pid in p.running
    ensures Valid(Reap(p, pid))
    ensures |Reap(p, pid).running| == |p.running| - 1
  {
    var q := Reap(p, pid);
    var idx := p.running[pid];
    assert q.running.Keys == p.running.Keys - {pid};
    assert Runs(p.running, idx);
    forall i | 0 <= i < |p.reaped| ensures p.reaped[i] != idx {
    }
    forall i: nat | i < q.next ensures Runs(q.running, i) <==> i !in q.reaped {
      if i == idx {
        assert q.reaped[|p.reaped|] == idx;
        assert !Runs(q.running, idx) by {
          forall k | k in q.running ensures q.running[k] != idx {
            assert k != pid && q.running[k] == p.running[k];
          }
        }
      } else {
        assert i in q.reaped <==> i in p.reaped;
        if Runs(p.running, i) {
          var k := KeyOf(p.running, i);
          assert k != pid && q.running[k] == i;
        }
        if Runs(q.running, i) {
          var k := KeyOf(q.running, i);
          assert p.running[k] == i;
        }
      }
    }
  }

  /** Every plausible step keeps the invariant. */
  lemma StepInv(m: Machine, answer: int)
    requires Inv(m) && Plausible(m, answer)
    ensures Inv(Step(m, answer))
  {
    match m.phase
    case Filling =>
      if answer > 0 { LaunchValid(m.pool, answer); }
    case Waiting =>
      if answer > 0 && answer in m.pool.running { ReapValid(m.pool, answer); }
    case Refilling =>
      if answer > 0 { LaunchValid(m.pool, answer); }
    case Done =>
    case Aborted =>
  }

  /** Along any plausible trace from the start, the invariant holds. */
  lemma {:induction false} RunInv(total: nat, answers: seq<int>)
    requires PlausibleTrace(Start(total), answers)
    ensures Inv(Run(Start(total), answers))
    decreases |answers|
  {
    if answers == [] {
      StartInv(total);
    } else {
      var n := |answers| - 1;
      var init, a := answers[..n], answers[n];
      PlausibleInit(Start(total), answers);
      RunInv(total, init);
      StepInv(Run(Start(total), init), a);
      RunSnoc(Start(total), init, a);
      assert init + [a] == answers;
    }
  }

  /** A plausible trace without its last answer is plausible, and so is that answer. */
  lemma PlausibleInit(m: Machine, answers: seq<int>)
    requires PlausibleTrace(m, answers) && answers != []
    ensures PlausibleTrace(m, answers[..|answers| - 1])
    ensures Plausible(Run(m, answers[..|answers| - 1]), answers[|answers| - 1])
  {
    var init := answers[..|answers| - 1];
    forall k | 0 <= k < |init| ensures Plausible(Run(m, init[..k]), init[k]) {
      assert init[..k] == answers[..k];
    }
  }

  // ---------------------------------------------------------------------------
  // Runs and traces

  /** Once the run has ended, further answers change nothing. */
  lemma {:induction false} RunEnded(m: Machine, answers: seq<int>)
    requires !Active(m)
    ensures Run(m, answers) == m
    decreases |answers|
  {
    if answers != [] {
      RunEnded(m, answers[..|answers| - 1]);
    }
  }

  /** Answering `a` and then `b` is answering `a + b`. */
  lemma {:induction false} RunConcat(m: Machine, a: seq<int>, b: seq<int>)
    ensures Run(m, a + b) == Run(Run(m, a), b)
    decreases |b|
  {
    if b == [] {
      assert a + b == a;
    } else {
      var b' := b[..|b| - 1];
      assert (a + b)[..|a + b| - 1] == a + b';
      RunConcat(m, a, b');
    }
  }

  function Min(a: nat, b: nat): (r: nat) {
    if a < b then a else b
  }

  /**
   * The state of the first loop after the forks in `forks` succeeded: items
   * 0, ..., k-1 are launched in order, item i under the pid `forks[i]`, the map
   * holds exactly those pids, and nothing has completed. The loop goes on
   * while fewer than min(NumProcess, total) are launched; then it stops,
   * because the pool is full or the list is exhausted.
   */
  ghost predicate Filled(m: Machine, total: nat, forks: seq<int>) {
    var p := m.pool;
    && p.total == total && p.next == |forks| && p.completed == 0
    && p.started == Iota(|forks|) && p.reaped == []
    && |p.running| == |forks|
    && (forall i | 0 <= i < |forks| :: forks[i] in p.running && p.running[forks[i]] == i)
    && (forall pid | pid in p.running :: pid in forks)
    && m.phase == if |forks| < Min(NumProcess, total) then Filling else if total == 0 then Done else Waiting
  }

  /** One more successful fork with a new pid in the first loop. */
  lemma FillStep(m: Machine, total: nat, forks: seq<int>, pid: int)
    requires Filled(m, total, forks) && |forks| < Min(NumProcess, total)
    requires pid > 0 && pid !in forks
    ensures Filled(Step(m, pid), total, forks + [pid])
  {
    var t := forks + [pid];
    var q := Step(m, pid).pool;
    assert q == Launch(m.pool, pid);
    assert pid !in m.pool.running;
    forall i | 0 <= i < |t| ensures t[i] in q.running && q.running[t[i]] == i {
      if i < |forks| {
        assert t[i] == forks[i] != pid;
      }
    }
    forall k | k in q.running ensures k in t {
      if k != pid {
        assert k in forks;
        var i :| 0 <= i < |forks| && forks[i] == k;
        assert t[i] == k;
      } else {
        assert t[|forks|] == pid;
      }
    }
  }

  /**
   * The first loop: from the start, with successful forks returning distinct
   * pids, the machine is in the state `Filled` describes.
   */
  lemma {:induction false} FillPhase(total: nat, forks: seq<int>)
    requires |forks| <= Min(NumProcess, total)
    requires forall i | 0 <= i < |forks| :: forks[i] > 0
    requires forall i, j | 0 <= i < j < |forks| :: forks[i] != forks[j]
    ensures Filled(Run(Start(total), forks), total, forks)
    decreases |forks|
  {
    if forks == [] {
      assert Run(Start(total), forks) == Start(total);
    } else {
      var n := |forks| - 1;
      var init, pid := forks[..n], forks[n];
      FillPhase(total, init);
      assert pid !in init by {
        forall i | 0 <= i < n ensures init[i] != pid {
          assert init[i] == forks[i];
        }
      }
      FillStep(Run(Start(total), init), total, init, pid);
      RunSnoc(Start(total), init, pid);
      assert init + [pid] == forks;
    }
  }

  /**
   * A wait result that is not positive or not a tracked pid is ignored: it can
   * be dropped from the trace without changing anything that follows.
   */
  lemma IgnoredWait(m: Machine, before: seq<int>, w: int, after: seq<int>)
    requires Run(m, before).phase == Waiting
    requires w <= 0 || w !in Run(m, before).pool.running
    ensures Run(m, before + [w] + after) == Run(m, before + after)
  {
    RunConcat(m, before + [w], after);
    RunConcat(m, before, after);
    RunSnoc(m, before, w);
  }

  /**
   * A tracked completion erases exactly that pid, records its item once and
   * increments the count by one; a replacement is due exactly when items are
   * left, and otherwise the run ends when this was the last child.
   */
  lemma TrackedWait(m: Machine, w: int)
    requires Inv(m) && m.phase == Waiting && w > 0 && w in m.pool.running
    ensures var p, q := m.pool, Step(m, w).pool;
            && q.running == p.running - {w} && |q.running| == |p.running| - 1
            && q.completed == p.completed + 1 && q.reaped == p.reaped + [p.running[w]]
            && q.next == p.next && q.started == p.started
    ensures Step(m, w).phase == Refilling <==> m.pool.next < m.pool.total
    ensures Step(m, w).phase == Done <==> m.pool.next == m.pool.total && |m.pool.running| == 1
  {
    ReapValid(m.pool, w);
  }

  /**
   * The replacement launch is item `next`, and it fills the slot the completion
   * freed: a wait and its refill leave the pool exactly as large as before.
   */
  lemma WaitThenRefill(m: Machine, w: int, pid: int)
    requires Inv(m) && m.phase == Waiting && w > 0 && w in m.pool.running
    requires m.pool.next < m.pool.total
    requires pid > 0 && pid !in Step(m, w).pool.running
    ensures var p, r := m.pool, Step(Step(m, w), pid);
            && r.phase == Waiting
            && r.pool.running == (p.running - {w})[pid := p.next]
            && |r.pool.running| == |p.running| == NumProcess
            && r.pool.next == p.next + 1 && r.pool.started == p.started + [p.next]
            && r.pool.completed == p.completed + 1
  {
    ReapValid(m.pool, w);
    LaunchValid(Step(m, w).pool, pid);
  }

  /**
   * The dispatcher's bookkeeping after any plausible trace: at most NumProcess
   * children, the conservation law between the three counters, launches in
   * list order, and the running children are exactly the launched items that
   * have not completed.
   */
  lemma {:induction false} Bookkeeping(total: nat, answers: seq<int>)
    requires PlausibleTrace(Start(total), answers)
    ensures var p := Run(Start(total), answers).pool;
            && p.total == total
            && |p.running| <= NumProcess
            && p.completed + |p.running| == p.next <= total
            && (forall i | 0 <= i < |p.started| :: p.started[i] == i) && |p.started| == p.next
            && (forall i: nat | i < p.next :: Runs(p.running, i) <==> i !in p.reaped)
            && (forall pid | pid in p.running :: p.running[pid] < p.next)
  {
    RunInv(total, answers);
    RunTotal(Start(total), answers);
    var p := Run(Start(total), answers).pool;
  }

  /** No step changes the number of items. */
  lemma {:induction false} RunTotal(m: Machine, answers: seq<int>)
    ensures Run(m, answers).pool.total == m.pool.total
    decreases |answers|
  {
    if answers != [] {
      RunTotal(m, answers[..|answers| - 1]);
    }
  }

  /**
   * Normal exit: every item was launched exactly once, in order, and completed
   * exactly once; nothing is left running and `main` returns 0.
   */
  lemma NormalExit(total: nat, answers: seq<int>)
    requires PlausibleTrace(Start(total), answers)
    requires Run(Start(total), answers).phase == Done
    ensures var p := Run(Start(total), answers).pool;
            && p.next == total && p.completed == total && p.running == map[]
            && p.started == Iota(total)
            && |p.reaped| == total
            && (forall i, j | 0 <= i < j < total :: p.reaped[i] != p.reaped[j])
            && (forall i: nat | i < total :: i in p.reaped)
    ensures ExitCode(Run(Start(total), answers)) == Some(0)
  {
    RunInv(total, answers);
    RunTotal(Start(total), answers);
    var p := Run(Start(total), answers).pool;
    assert p.running == map[] by {
      assert |p.running| == 0;
    }
    forall i: nat | i < total ensures i in p.reaped {
      assert !Runs(p.running, i);
    }
  }

  /**
   * A failed fork ends the run with exit code 1 before every item has
   * completed; the failing step launches nothing, and no answer after it is read.
   */
  lemma ForkFailure(m: Machine, pid: int, rest: seq<int>)
    requires Inv(m) && (m.phase == Filling || m.phase == Refilling) && pid <= 0
    ensures Step(m, pid) == Machine(Aborted, m.pool)
    ensures Run(Step(m, pid), rest) == Step(m, pid)
    ensures ExitCode(Step(m, pid)) == Some(1)
    ensures m.pool.completed < m.pool.total
  {
    RunEnded(Step(m, pid), rest);
  }

  /** Launches and tracked completions still to come: 0 exactly when the run is done. */
  function Remaining(p: Pool): (r: int) {
    2 * p.total - p.next - p.completed
  }

  /**
   * Progress relative to the operating system: the dispatcher only waits
   * while some tracked child is running, and every answer either is ignored,
   * aborts the run, or brings it one step closer to the end.
   */
  lemma Progress(m: Machine, answer: int)
    requires Inv(m) && Active(m) && Plausible(m, answer)
    ensures m.phase == Waiting ==> |m.pool.running| > 0
    ensures Remaining(m.pool) > 0
    ensures var m' := Step(m, answer);
            m' == m || m'.phase == Aborted || Remaining(m'.pool) == Remaining(m.pool) - 1
  {
  }

  /** An operating system that never fails a fork and only reports tracked children. */
  ghost predicate Cooperative(m: Machine, answers: seq<int>) {
    forall k | 0 <= k < |answers| :: CooperativeAnswer(Run(m, answers[..k]), answers[k])
  }

  ghost predicate CooperativeAnswer(m: Machine, answer: int) {
    && answer > 0
    && (m.phase == Waiting ==> answer in m.pool.running)
    && (m.phase != Waiting ==> answer !in m.pool.running)
  }

  lemma CooperativeStep(m: Machine, answer: int)
    requires Inv(m) && Active(m) && CooperativeAnswer(m, answer)
    ensures Plausible(m, answer)
    ensures Inv(Step(m, answer)) && Step(m, answer).phase != Aborted
    ensures Remaining(Step(m, answer).pool) == Remaining(m.pool) - 1
  {
    StepInv(m, answer);
  }

  /** A trace stays plausible when its next answer is. */
  lemma PlausibleExtend(m: Machine, answers: seq<int>, a: int)
    requires PlausibleTrace(m, answers) && Plausible(Run(m, answers), a)
    ensures PlausibleTrace(m, answers + [a])
  {
    var t := answers + [a];
    forall k | 0 <= k < |t| ensures Plausible(Run(m, t[..k]), t[k]) {
      assert t[..k] == answers[..k] || k == |answers|;
      if k == |answers| {
        assert t[..k] == answers;
      }
    }
  }

  /**
   * With a cooperative operating system the run ends normally after exactly
   * 2 * total answers: one fork and one wait per item.
   */
  lemma {:induction false} CooperativeRun(total: nat, answers: seq<int>)
    requires Cooperative(Start(total), answers) && |answers| <= 2 * total
    ensures PlausibleTrace(Start(total), answers)
    ensures Inv(Run(Start(total), answers)) && Run(Start(total), answers).phase != Aborted
    ensures Remaining(Run(Start(total), answers).pool) == 2 * total - |answers|
    ensures Run(Start(total), answers).phase == Done <==> |answers| == 2 * total
    decreases |answers|
  {
    if answers == [] {
      StartInv(total);
    } else {
      var n := |answers| - 1;
      var init, a := answers[..n], answers[n];
      CooperativeInit(Start(total), answers);
      CooperativeRun(total, init);
      var s := Run(Start(total), init);
      CooperativeStep(s, a);
      PlausibleExtend(Start(total), init, a);
      RunSnoc(Start(total), init, a);
      assert init + [a] == answers;
    }
  }

  lemma CooperativeInit(m: Machine, answers: seq<int>)
    requires Cooperative(m, answers) && answers != []
    ensures Cooperative(m, answers[..|answers| - 1])
    ensures CooperativeAnswer(Run(m, answers[..|answers| - 1]), answers[|answers| - 1])
  {
    var init := answers[..|answers| - 1];
    forall k | 0 <= k < |init| ensures CooperativeAnswer(Run(m, init[..k]), init[k]) {
      assert init[..k] == answers[..k];
    }
  }
}
