/** Driving a tree to a fixpoint: a loop over the rounds, and a loop over each round's outcomes. */
module Driver {
  import opened Spans
  import opened Arenas
  import opened Invariants
  import opened Engines
  import opened Executors
  import opened Runs
  import opened Batches
  import opened ParseTrees

  /**
    * One run.  It ends at a round without a ready node, at the round cap, or when it finds the token
    * cancelled: `token(r)` is the poll before round `r`, and the executor may stop early on polls of
    * its own.
    */
  method RunEngine<C(==, !new)>(engine: Engine<C>, source: Text, tree: ParseTree<C>, exec: Executor<C>, token: Polls)
      returns (report: Report)
    requires tree.Valid() && Contract(exec)
    modifies tree`nodes
    ensures tree.Valid()
    ensures var p := Run(engine, source, old(tree.nodes), exec, token);
            tree.nodes == p.arena && report == p.report
  {
    hide Consistent, Tracks, RunFrom, ReadyJobs, Contract, IsBatch, MergeBatch, Outcomes, Pending;
    ghost var start, rev := tree.nodes, tree.rev;
    ghost var p := Progress(tree.nodes, EMPTY_REPORT, []);
    FreshRunTracks(engine, source, start, rev);
    report := EMPTY_REPORT;
    var maxRounds := engine.MaxRounds();
    for round := 0 to maxRounds
      invariant tree.rev == rev && tree.nodes == p.arena && report == p.report
      invariant Tracks(engine, source, start, rev, p, round)
      invariant Run(engine, source, start, exec, token) == RunFrom(engine, source, p, exec, token, round)
    {
      RunUnfolds(engine, source, p, exec, token, round);
      if token(round) {
        report := report.(cancelled := true);
        TrackedIsConsistent(engine, source, start, rev, p, round);
        return;
      }
      var jobs := ReadyJobs(tree.nodes, round);
      if jobs == [] {
        report := report.(reachedFixpoint := true);
        TrackedIsConsistent(engine, source, start, rev, p, round);
        return;
      }
      var batchSize := |jobs|;
      var executed := exec(jobs, Runner(engine, source));
      var merged := |executed|;
      NextTracks(engine, source, start, rev, p, exec, token, round);
      BatchIsExecuted(engine, source, p, exec, round);
      TrackedIsConsistent(engine, source, start, rev, p, round);
      report := MergeExecuted(engine, source, tree, p, start, jobs, executed, round, report);
      report := report.(roundsRun := report.roundsRun + 1, nodesProcessed := report.nodesProcessed + merged);
      p := Next(engine, source, p, exec, round);
      if merged < batchSize {
        report := report.(cancelled := true);
        TrackedIsConsistent(engine, source, start, rev, p, round + 1);
        return;
      }
    }
    RunUnfolds(engine, source, p, exec, token, maxRounds);
    TrackedIsConsistent(engine, source, start, rev, p, maxRounds);
    report := report.(reachedFixpoint := Pending(tree.nodes, maxRounds) == []);
  }

  lemma BatchIsExecuted<C(!new)>(engine: Engine<C>, source: Text, p: Progress<C>, exec: Executor<C>, round: nat)
    requires Contract(exec)
    ensures var jobs := ReadyJobs(p.arena, round);
            var executed := exec(jobs, Runner(engine, source));
            IsBatch(p.arena, jobs, round) && |executed| <= |jobs| && executed == Outcomes(jobs, Runner(engine, source), |executed|)
  {
    ReadyJobsAreABatch(p.arena, round, |p.arena|);
    var jobs := ReadyJobs(p.arena, round);
    assert |exec(jobs, Runner(engine, source))| <= |jobs|;
  }

  /** Applies the outcomes of a round to the tree one by one, and keeps count of the failures. */
  method MergeExecuted<C(==, !new)>(
      engine: Engine<C>, source: Text, tree: ParseTree<C>, ghost p: Progress<C>, ghost start: Arena<C>,
      ghost jobs: seq<Job<C>>, executed: Executed<C>, round: nat, before: Report) returns (report: Report)
    requires tree.Valid() && tree.nodes == p.arena && before == p.report && round < engine.MaxRounds()
    requires Tracks(engine, source, start, tree.rev, p, round)
    requires IsBatch(p.arena, jobs, round) && |executed| <= |jobs|
    requires executed == Outcomes(jobs, Runner(engine, source), |executed|)
    modifies tree`nodes
    ensures tree.Valid()
    ensures var q := MergeBatch(engine, p, executed, round); tree.nodes == q.arena && report == q.report
  {
    hide Consistent, Tracks, Contract, Merge, IsBatch, InRange, Outcomes, Judge;
    report := before;
    assert executed[..0] == [];
    for k := 0 to |executed|
      invariant tree.rev == old(tree.rev) && tree.Valid()
      invariant var q := MergeBatch(engine, p, executed[..k], round); tree.nodes == q.arena && report == q.report
    {
      var (job, outcome) := executed[k];
      PrefixIsReady(engine, source, start, tree.rev, p, jobs, executed, round, k);
      var applied := tree.Apply(job.node, outcome, round, engine.shrink);
      if applied.Failed? {
        report := report.(nodesFailed := report.nodesFailed + 1);
        if applied.violation.Some? {
          report := report.(violations := report.violations + [applied.violation.value]);
        }
      }
      assert executed[..k + 1][..k] == executed[..k];
    }
    assert executed[..|executed|] == executed;
  }

  /** When its turn comes, job `k` finds its node ready and still in this round. */
  lemma PrefixIsReady<C>(
      engine: Engine<C>, source: Text, start: Arena<C>, rev: nat, p: Progress<C>, jobs: seq<Job<C>>, executed: Executed<C>,
      round: nat, k: nat)
    requires Tracks(engine, source, start, rev, p, round) && round < engine.MaxRounds()
    requires IsBatch(p.arena, jobs, round) && k < |executed| <= |jobs|
    requires executed == Outcomes(jobs, Runner(engine, source), |executed|)
    ensures var b := MergeBatch(engine, p, executed[..k], round).arena;
            var id := executed[k].0.node;
            id < |b| && b[id].Ready() && b[id].depth == round
  {
    assert executed[..k] == Outcomes(jobs, Runner(engine, source), k);
    BatchIsReplay(engine, source, start, rev, p, jobs, round, k);
    BatchStep(engine, source, p.arena, MergeBatch(engine, p, executed[..k], round).arena, rev, jobs, round, k);
  }
}
