/** The shared-counter worker pool of dsh/scripts/publint-all.ts. Between two awaits a
    worker runs alone, so a run is an interleaving of two kinds of step: a worker takes
    the next index, or the lint a worker awaits settles. */
module WorkerPool {

  datatype Worker = Idle | Linting(index: nat) | Returned

  datatype LintResult = LintResult(path: string, passed: bool)

  /** `started` logs the targets handed to the linter. */
  datatype Pool = Pool(next: nat, results: map<nat, LintResult>, workers: seq<Worker>, started: seq<nat>)

  function Init(concurrency: nat): (p: Pool)
    ensures |p.workers| == concurrency && forall w | 0 <= w < concurrency :: p.workers[w] == Idle
  {
    Pool(0, map[], seq(concurrency, _ => Idle), [])
  }

  /** A worker takes the next index, and returns when no target has it. */
  function Take(p: Pool, total: nat, w: nat): Pool
    requires w < |p.workers|
  {
    if p.next < total then
      p.(next := p.next + 1, workers := p.workers[w := Linting(p.next)], started := p.started + [p.next])
    else
      p.(next := p.next + 1, workers := p.workers[w := Returned])
  }

  /** The lint a worker awaits settles, and its result is stored at its index. */
  function Finish(p: Pool, lint: nat -> LintResult, w: nat): Pool
    requires w < |p.workers| && p.workers[w].Linting?
  {
    var index := p.workers[w].index;
    p.(results := p.results[index := lint(index)], workers := p.workers[w := Idle])
  }

  ghost predicate StepOf(total: nat, lint: nat -> LintResult, p: Pool, q: Pool, w: nat) {
    && w < |p.workers|
    && ((p.workers[w].Idle? && q == Take(p, total, w))
        || (p.workers[w].Linting? && q == Finish(p, lint, w)))
  }

  ghost predicate Next(total: nat, lint: nat -> LintResult, p: Pool, q: Pool) {
    exists w: nat :: StepOf(total, lint, p, q, w)
  }

  /** Every index below the counter has been started once and is either being linted by
      one worker or has its own result; a returned worker saw the end of the targets. */
  ghost predicate Inv(total: nat, lint: nat -> LintResult, concurrency: nat, p: Pool) {
    && |p.workers| == concurrency
    && |p.started| <= total && p.next >= |p.started| && (p.next > |p.started| ==> |p.started| == total)
    && (forall i | 0 <= i < |p.started| :: p.started[i] == i)
    && (forall w | 0 <= w < concurrency && p.workers[w].Linting? ::
          p.workers[w].index < |p.started| && p.workers[w].index !in p.results)
    && (forall v, w | 0 <= v < w < concurrency && p.workers[v].Linting? && p.workers[w].Linting? ::
          p.workers[v].index != p.workers[w].index)
    && (forall i | i in p.results :: i < |p.started| && p.results[i] == lint(i))
    && (forall i | 0 <= i < |p.started| :: i in p.results || Busy(p, i))
    && (forall w | 0 <= w < concurrency && p.workers[w].Returned? :: |p.started| == total)
  }

  ghost predicate Busy(p: Pool, i: nat) {
    exists w :: 0 <= w < |p.workers| && p.workers[w] == Linting(i)
  }

  lemma InitInv(total: nat, lint: nat -> LintResult, concurrency: nat)
    ensures Inv(total, lint, concurrency, Init(concurrency))
  {
  }

  lemma TakeInv(total: nat, lint: nat -> LintResult, concurrency: nat, p: Pool, w: nat)
    requires Inv(total, lint, concurrency, p) && w < |p.workers| && p.workers[w].Idle?
    ensures Inv(total, lint, concurrency, Take(p, total, w))
  {
    var q := Take(p, total, w);
    forall i | 0 <= i < |q.started|
      ensures i in q.results || Busy(q, i)
    {
      if i < |p.started| {
        if i !in p.results {
          var v :| 0 <= v < |p.workers| && p.workers[v] == Linting(i);
          assert q.workers[v] == Linting(i);
        }
      } else {
        assert q.workers[w] == Linting(i);
      }
    }
  }

  lemma FinishInv(total: nat, lint: nat -> LintResult, concurrency: nat, p: Pool, w: nat)
    requires Inv(total, lint, concurrency, p) && w < |p.workers| && p.workers[w].Linting?
    ensures Inv(total, lint, concurrency, Finish(p, lint, w))
  {
    var q := Finish(p, lint, w);
    forall i | 0 <= i < |q.started|
      ensures i in q.results || Busy(q, i)
    {
      if i !in p.results && i != p.workers[w].index {
        var v :| 0 <= v < |p.workers| && p.workers[v] == Linting(i);
        assert q.workers[v] == Linting(i);
      }
    }
  }

  lemma NextInv(total: nat, lint: nat -> LintResult, concurrency: nat, p: Pool, q: Pool)
    requires Inv(total, lint, concurrency, p) && Next(total, lint, p, q)
    ensures Inv(total, lint, concurrency, q)
  {
    hide Inv;
    var w: nat :| StepOf(total, lint, p, q, w);
    if p.workers[w].Idle? {
      TakeInv(total, lint, concurrency, p, w);
    } else {
      FinishInv(total, lint, concurrency, p, w);
    }
  }

  ghost predicate Run(total: nat, lint: nat -> LintResult, concurrency: nat, tr: seq<Pool>) {
    && tr != []
    && if |tr| == 1 then tr[0] == Init(concurrency)
       else Run(total, lint, concurrency, tr[..|tr| - 1]) && Next(total, lint, tr[|tr| - 2], tr[|tr| - 1])
  }

  lemma {:induction false} RunInv(total: nat, lint: nat -> LintResult, concurrency: nat, tr: seq<Pool>)
    requires Run(total, lint, concurrency, tr)
    ensures Inv(total, lint, concurrency, tr[|tr| - 1])
  {
    hide Inv, Next;
    if |tr| == 1 {
      InitInv(total, lint, concurrency);
    } else {
      RunInv(total, lint, concurrency, tr[..|tr| - 1]);
      NextInv(total, lint, concurrency, tr[|tr| - 2], tr[|tr| - 1]);
    }
  }

  ghost predicate AllReturned(p: Pool) {
    forall w | 0 <= w < |p.workers| :: p.workers[w].Returned?
  }

  /** At every moment of every interleaving no target has been linted twice, and a result
      is that of its own target. */
  lemma NeverTwice(total: nat, lint: nat -> LintResult, concurrency: nat, tr: seq<Pool>)
    requires Run(total, lint, concurrency, tr)
    ensures var p := tr[|tr| - 1];
            && |p.workers| == concurrency
            && (forall i, j | 0 <= i < j < |p.started| :: p.started[i] != p.started[j])
            && (forall i | i in p.results :: i in p.started && i < total && p.results[i] == lint(i))
  {
    RunInv(total, lint, concurrency, tr);
    var p := tr[|tr| - 1];
    forall i | i in p.results
      ensures i in p.started
    {
      assert p.started[i] == i;
    }
  }

  ghost predicate HasEvery(total: nat, p: Pool) {
    forall i | 0 <= i < total :: i in p.results
  }

  /** Once every worker has returned, every target has its result exactly when there was
      a worker or nothing to lint: the missing-result error needs an empty pool. */
  lemma CompleteResults(total: nat, lint: nat -> LintResult, concurrency: nat, tr: seq<Pool>)
    requires Run(total, lint, concurrency, tr) && AllReturned(tr[|tr| - 1])
    ensures HasEvery(total, tr[|tr| - 1]) <==> concurrency >= 1 || total == 0
    ensures concurrency >= 1 ==> |tr[|tr| - 1].started| == total
  {
    RunInv(total, lint, concurrency, tr);
    var p := tr[|tr| - 1];
    if concurrency >= 1 {
      assert p.workers[0].Returned?;
    } else if total > 0 {
      EmptyPoolIdle(total, lint, tr);
      assert 0 !in p.results;
    }
  }

  lemma {:induction false} EmptyPoolIdle(total: nat, lint: nat -> LintResult, tr: seq<Pool>)
    requires Run(total, lint, 0, tr)
    ensures tr[|tr| - 1] == Init(0)
  {
    if |tr| > 1 {
      EmptyPoolIdle(total, lint, tr[..|tr| - 1]);
    }
  }

  // ------------------------------------------------------------------------ termination

  ghost function Weight(w: Worker): nat {
    match w
    case Idle => 1
    case Linting(_) => 2
    case Returned => 0
  }

  ghost function Weights(workers: seq<Worker>): nat {
    if workers == [] then 0 else Weight(workers[0]) + Weights(workers[1..])
  }

  lemma {:induction false} WeightsUpdate(workers: seq<Worker>, w: nat, x: Worker)
    requires w < |workers|
    ensures Weights(workers[w := x]) == Weights(workers) - Weight(workers[w]) + Weight(x)
  {
    if w > 0 {
      WeightsUpdate(workers[1..], w - 1, x);
      assert workers[w := x][1..] == workers[1..][w - 1 := x];
    } else {
      assert workers[0 := x][1..] == workers[1..];
    }
  }

  ghost function Measure(total: nat, p: Pool): int {
    3 * (total - |p.started|) + Weights(p.workers)
  }

  /** Every step lowers the measure, so every interleaving ends. */
  lemma NextMeasure(total: nat, lint: nat -> LintResult, concurrency: nat, p: Pool, q: Pool)
    requires Inv(total, lint, concurrency, p) && Next(total, lint, p, q)
    ensures 0 <= Measure(total, q) < Measure(total, p)
  {
    NextInv(total, lint, concurrency, p, q);
    var w: nat :| StepOf(total, lint, p, q, w);
    WeightsUpdate(p.workers, w, q.workers[w]);
    assert q.workers == p.workers[w := q.workers[w]];
  }

  /** Until all workers have returned, some worker can step. */
  lemma Progress(total: nat, lint: nat -> LintResult, p: Pool)
    ensures AllReturned(p) || exists q :: Next(total, lint, p, q)
  {
    if !AllReturned(p) {
      var w: nat :| w < |p.workers| && !p.workers[w].Returned?;
      var q := if p.workers[w].Idle? then Take(p, total, w) else Finish(p, lint, w);
      assert StepOf(total, lint, p, q, w);
      assert Next(total, lint, p, q);
    }
  }

  // ------------------------------------------------------------------- the run in place

  datatype RunResult = AllLinted(results: seq<LintResult>) | MissingResult

  /** The variables the workers share. */
  class SharedRun {
    const total: nat
    const lint: nat -> LintResult
    var next: nat
    var results: map<nat, LintResult>
    var workers: seq<Worker>
    ghost var started: seq<nat>

    ghost function State(): Pool
      reads this
    {
      Pool(next, results, workers, started)
    }

    constructor (total: nat, lint: nat -> LintResult, concurrency: nat)
      ensures this.total == total && this.lint == lint && State() == Init(concurrency)
    {
      this.total, this.lint := total, lint;
      next, results, workers, started := 0, map[], seq(concurrency, _ => Idle), [];
    }

    /** Worker `w` runs until its next await: either it takes an index, or its lint settles. */
    method Resume(w: nat)
      requires w < |workers| && !workers[w].Returned?
      modifies this
      ensures StepOf(total, lint, old(State()), State(), w)
    {
      if workers[w].Idle? {
        var index := next;
        next := next + 1;
        if index < total {
          workers, started := workers[w := Linting(index)], started + [index];
        } else {
          workers := workers[w := Returned];
        }
      } else {
        var index := workers[w].index;
        results := results[index := lint(index)];
        workers := workers[w := Idle];
      }
    }
  }

  lemma RunExtend(total: nat, lint: nat -> LintResult, concurrency: nat, tr: seq<Pool>, q: Pool, w: nat)
    requires Run(total, lint, concurrency, tr) && StepOf(total, lint, tr[|tr| - 1], q, w)
    ensures Run(total, lint, concurrency, tr + [q])
    ensures 0 <= Measure(total, q) < Measure(total, tr[|tr| - 1])
  {
    hide StepOf, Inv, Measure;
    RunInv(total, lint, concurrency, tr);
    assert Next(total, lint, tr[|tr| - 1], q);
    NextMeasure(total, lint, concurrency, tr[|tr| - 1], q);
    assert (tr + [q])[..|tr|] == tr;
  }

  /** `runAll`: workers resume in any order until all have returned. `tr` records the states. */
  method RunAll(total: nat, lint: nat -> LintResult, concurrency: nat) returns (r: RunResult, ghost tr: seq<Pool>)
    ensures Run(total, lint, concurrency, tr) && AllReturned(tr[|tr| - 1])
    ensures r.AllLinted? <==> concurrency >= 1 || total == 0
    ensures r.AllLinted? ==> |r.results| == total && forall i | 0 <= i < total :: r.results[i] == lint(i)
  {
    hide Measure, StepOf, Inv, Run;
    var run := new SharedRun(total, lint, concurrency);
    tr := [run.State()];
    RunOne(total, lint, concurrency);
    while exists w | 0 <= w < |run.workers| :: !run.workers[w].Returned?
      invariant tr != [] && Run(total, lint, concurrency, tr) && tr[|tr| - 1] == run.State()
      invariant run.total == total && run.lint == lint
      decreases Measure(total, run.State())
    {
      var w: nat :| w < |run.workers| && !run.workers[w].Returned?;
      run.Resume(w);
      RunExtend(total, lint, concurrency, tr, run.State(), w);
      tr := tr + [run.State()];
    }
    CompleteResults(total, lint, concurrency, tr);
    NeverTwice(total, lint, concurrency, tr);
    var results: seq<LintResult> := [];
    for i := 0 to total
      invariant |results| == i && forall k | 0 <= k < i :: k in run.results && results[k] == run.results[k]
    {
      if i !in run.results { return MissingResult, tr; }
      results := results + [run.results[i]];
    }
    r := AllLinted(results);
  }

  lemma RunOne(total: nat, lint: nat -> LintResult, concurrency: nat)
    ensures Run(total, lint, concurrency, [Init(concurrency)])
  {
  }
}
