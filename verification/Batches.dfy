/** The jobs of one round do not disturb each other, so a run is a sequence of merges on ready nodes. */
module Batches {
  import opened Spans
  import opened Arenas
  import opened Invariants
  import opened Engines
  import opened Executors
  import opened Freshness
  import opened Runs

  // ----- batch independence -----

  /** Going down the tree the home round always lies past every ancestor's current round. */
  lemma {:induction false} RoundsGrowDownward<C>(a: Arena<C>, rev: nat, i: nat, j: nat)
    requires Consistent(a, rev) && i < |a| && j < |a| && a[i].alive && a[j].alive
    requires Under(a, i, j) && i != j
    ensures a[i].depth < Home(a[j]) <= a[j].depth
    decreases j
  {
    assert Listed(a, j);
    var p := a[j].parent.value;
    if p != i {
      RoundsGrowDownward(a, rev, i, p);
    }
  }

  /** Merging a ready node changes no other live node of the same or an earlier round. */
  lemma MergeSparesPeers<C>(engine: Engine<C>, source: Text, a: Arena<C>, rev: nat, id: nat, j: nat)
    requires Consistent(a, rev) && id < |a| && a[id].Ready()
    requires j < |a| && a[j].alive && j != id && a[j].depth <= a[id].depth
    ensures var b := MergeNext(engine, source, a, id); |a| <= |b| && b[j] == a[j]
  {
    MergeEffect(a, id, NextVerdict(engine, source, a[id]));
    if Under(a, id, j) {
      RoundsGrowDownward(a, rev, id, j);
    }
  }

  lemma MergeNextKeepsConsistent<C>(engine: Engine<C>, source: Text, a: Arena<C>, rev: nat, id: nat)
    requires Consistent(a, rev) && id < |a| && a[id].Ready()
    ensures Consistent(MergeNext(engine, source, a, id), rev)
  {
    JudgeIsLegal(a[id].span, engine.Attempt(source, a[id].depth, a[id].span, a[id].ctx), engine.shrink);
    MergeKeepsConsistent(a, id, NextVerdict(engine, source, a[id]), engine.shrink, rev);
  }

  function NodesOf<C>(jobs: seq<Job<C>>): (ids: seq<nat>)
    ensures |ids| == |jobs|
    ensures forall k | 0 <= k < |jobs| :: ids[k] == jobs[k].node
  {
    seq(|jobs|, k requires 0 <= k < |jobs| => jobs[k].node)
  }

  /** Every job's node is still the node the job was made from when its outcome is merged. */
  ghost predicate Awaits<C>(a: Arena<C>, b: Arena<C>, jobs: seq<Job<C>>, n: nat) {
    && |a| <= |b|
    && forall m | n <= m < |jobs| :: jobs[m].node < |a| && b[jobs[m].node] == a[jobs[m].node]
  }

  /** Merging job `n` finds its node as the job found it, and leaves the later jobs' nodes alone. */
  lemma BatchStep<C>(engine: Engine<C>, source: Text, a: Arena<C>, b: Arena<C>, rev: nat, jobs: seq<Job<C>>, round: nat, n: nat)
    requires IsBatch(a, jobs, round) && n < |jobs| && Consistent(b, rev) && Awaits(a, b, jobs, n)
    ensures var id := jobs[n].node; var c := MergeNext(engine, source, b, id);
            && id < |b| && b[id].Ready() && b[id].depth == round
            && MergeJob(engine, b, id, Runner(engine, source)(jobs[n])) == c
            && Consistent(c, rev) && Awaits(a, c, jobs, n + 1)
  {
    var id := jobs[n].node;
    assert b[id] == a[id];
    MergeNextKeepsConsistent(engine, source, b, rev, id);
    MergeSparesNothingNew(engine, source, b, rev, id);
    forall m | n + 1 <= m < |jobs| ensures MergeNext(engine, source, b, id)[jobs[m].node] == a[jobs[m].node] {
      MergeSparesPeers(engine, source, b, rev, id, jobs[m].node);
    }
  }

  lemma MergeSparesNothingNew<C>(engine: Engine<C>, source: Text, a: Arena<C>, rev: nat, id: nat)
    requires Consistent(a, rev) && id < |a| && a[id].Ready()
    ensures |a| <= |MergeNext(engine, source, a, id)|
  {
    MergeEffect(a, id, NextVerdict(engine, source, a[id]));
  }

  /**
    * The state of a run that began on `start`: it is the outcome of the logged merges, all of them
    * on ready nodes below the cap; no pass has met the same node twice; only rounds before `round`
    * have been run, and the report counts the merges.
    */
  ghost predicate Tracks<C>(engine: Engine<C>, source: Text, start: Arena<C>, rev: nat, p: Progress<C>, round: nat) {
    && p.arena == Replay(engine, source, start, NodesOf(p.log))
    && Legit(engine, source, start, NodesOf(p.log))
    && Consistent(p.arena, rev)
    && OnceEach(p.log, round)
    && p.report.nodesProcessed == |p.log|
    && p.report.roundsRun <= round <= engine.MaxRounds()
  }

  ghost predicate OnceEach<C>(log: seq<Job<C>>, round: nat) {
    && (forall k | 0 <= k < |log| :: log[k].passIndex < round)
    && (forall j, k | 0 <= j < k < |log| :: log[j].node != log[k].node || log[j].passIndex != log[k].passIndex)
  }

  lemma LogOneMore<C>(engine: Engine<C>, source: Text, start: Arena<C>, b: Arena<C>, log: seq<Job<C>>, job: Job<C>)
    requires b == Replay(engine, source, start, NodesOf(log)) && Legit(engine, source, start, NodesOf(log))
    requires job.node < |b| && Workable(b[job.node], engine.MaxRounds())
    ensures MergeNext(engine, source, b, job.node) == Replay(engine, source, start, NodesOf(log + [job]))
    ensures Legit(engine, source, start, NodesOf(log + [job]))
  {
    hide MergeNext;
    assert NodesOf(log + [job])[..|log|] == NodesOf(log);
  }

  lemma MergeBatchSnoc<C>(engine: Engine<C>, p: Progress<C>, jobs: seq<Job<C>>, run: Job<C> -> Outcome<C>, round: nat, n: nat)
    requires 0 < n <= |jobs|
    ensures var q := MergeBatch(engine, p, Outcomes(jobs, run, n - 1), round);
            var r := MergeBatch(engine, p, Outcomes(jobs, run, n), round);
            jobs[n - 1].node < |q.arena| ==>
              && r.arena == MergeJob(engine, q.arena, jobs[n - 1].node, run(jobs[n - 1]))
              && r.log == q.log + [jobs[n - 1]]
              && r.report.nodesProcessed == q.report.nodesProcessed && r.report.roundsRun == q.report.roundsRun
  {
    var done := Outcomes(jobs, run, n);
    assert done[..n - 1] == Outcomes(jobs, run, n - 1);
    assert done[n - 1] == (jobs[n - 1], run(jobs[n - 1]));
  }

  /** `q` is the run's state after merging the first `n` jobs of a round that began in state `p`. */
  ghost predicate Midway<C>(
      engine: Engine<C>, source: Text, start: Arena<C>, rev: nat, p: Progress<C>, q: Progress<C>, jobs: seq<Job<C>>, n: nat)
    requires n <= |jobs|
  {
    && q.arena == Replay(engine, source, start, NodesOf(q.log))
    && Legit(engine, source, start, NodesOf(q.log))
    && Consistent(q.arena, rev) && Awaits(p.arena, q.arena, jobs, n)
    && q.log == p.log + jobs[..n]
    && q.report.nodesProcessed == p.report.nodesProcessed && q.report.roundsRun == p.report.roundsRun
  }

  lemma MidwayStep<C>(
      engine: Engine<C>, source: Text, start: Arena<C>, rev: nat, p: Progress<C>, q: Progress<C>, r: Progress<C>,
      jobs: seq<Job<C>>, round: nat, n: nat)
    requires n < |jobs| && Midway(engine, source, start, rev, p, q, jobs, n)
    requires IsBatch(p.arena, jobs, round) && round < engine.MaxRounds()
    requires r.arena == MergeJob(engine, q.arena, jobs[n].node, Runner(engine, source)(jobs[n]))
    requires r.log == q.log + [jobs[n]]
    requires r.report.nodesProcessed == q.report.nodesProcessed && r.report.roundsRun == q.report.roundsRun
    ensures Midway(engine, source, start, rev, p, r, jobs, n + 1)
  {
    hide Consistent, Replay, Legit, MergeNext, MergeJob;
    BatchStep(engine, source, p.arena, q.arena, rev, jobs, round, n);
    LogOneMore(engine, source, start, q.arena, q.log, jobs[n]);
    assert jobs[..n + 1] == jobs[..n] + [jobs[n]];
  }

  /** Merging any prefix of a round's batch is a legitimate sequence of merges. */
  lemma {:induction false} BatchIsReplay<C>(
      engine: Engine<C>, source: Text, start: Arena<C>, rev: nat, p: Progress<C>, jobs: seq<Job<C>>, round: nat, n: nat)
    requires Tracks(engine, source, start, rev, p, round) && round < engine.MaxRounds()
    requires IsBatch(p.arena, jobs, round) && n <= |jobs|
    ensures Midway(engine, source, start, rev, p, MergeBatch(engine, p, Outcomes(jobs, Runner(engine, source), n), round), jobs, n)
  {
    hide Consistent, Replay, Legit, MergeJob;
    var r := MergeBatch(engine, p, Outcomes(jobs, Runner(engine, source), n), round);
    if n > 0 {
      BatchIsReplay(engine, source, start, rev, p, jobs, round, n - 1);
      var q := MergeBatch(engine, p, Outcomes(jobs, Runner(engine, source), n - 1), round);
      assert jobs[n - 1].node < |q.arena|;
      MergeBatchSnoc(engine, p, jobs, Runner(engine, source), round, n);
      MidwayStep(engine, source, start, rev, p, q, r, jobs, round, n - 1);
    }
  }

  lemma BatchIsOnceEach<C>(log: seq<Job<C>>, a: Arena<C>, jobs: seq<Job<C>>, round: nat, n: nat)
    requires OnceEach(log, round) && IsBatch(a, jobs, round) && n <= |jobs|
    ensures OnceEach(log + jobs[..n], round + 1)
  {
  }

  /** A round, cut short or not, keeps the run on track. */
  lemma RoundTracks<C>(engine: Engine<C>, source: Text, start: Arena<C>, rev: nat, p: Progress<C>, round: nat, n: nat)
    requires Tracks(engine, source, start, rev, p, round) && round < engine.MaxRounds()
    requires n <= |ReadyJobs(p.arena, round)|
    ensures var q := MergeRound(engine, p, Outcomes(ReadyJobs(p.arena, round), Runner(engine, source), n), round);
            Tracks(engine, source, start, rev, q, round + 1)
  {
    var jobs := ReadyJobs(p.arena, round);
    ReadyJobsAreABatch(p.arena, round, |p.arena|);
    BatchIsReplay(engine, source, start, rev, p, jobs, round, n);
    BatchIsOnceEach(p.log, p.arena, jobs, round, n);
  }

  lemma TracksToTheEnd<C>(engine: Engine<C>, source: Text, start: Arena<C>, rev: nat, p: Progress<C>, round: nat, report: Report)
    requires Tracks(engine, source, start, rev, p, round)
    requires report.nodesProcessed == p.report.nodesProcessed && report.roundsRun == p.report.roundsRun
    ensures Tracks(engine, source, start, rev, p.(report := report), engine.MaxRounds())
  {
  }

  /** The run goes on to execute a batch in this round. */
  ghost predicate Goes<C>(engine: Engine<C>, p: Progress<C>, token: Polls, round: nat) {
    round < engine.MaxRounds() && !token(round) && ReadyJobs(p.arena, round) != []
  }

  /** The state after the executor has had the batch of this round. */
  ghost function Next<C>(engine: Engine<C>, source: Text, p: Progress<C>, exec: Executor<C>, round: nat): Progress<C> {
    MergeRound(engine, p, exec(ReadyJobs(p.arena, round), Runner(engine, source)), round)
  }

  ghost predicate CutShort<C>(engine: Engine<C>, source: Text, p: Progress<C>, exec: Executor<C>, round: nat) {
    |exec(ReadyJobs(p.arena, round), Runner(engine, source))| < |ReadyJobs(p.arena, round)|
  }

  /** How a run unfolds: it stops here, stops after a batch cut short, or goes on with the next round. */
  lemma RunUnfolds<C>(engine: Engine<C>, source: Text, p: Progress<C>, exec: Executor<C>, token: Polls, round: nat)
    ensures var end := RunFrom(engine, source, p, exec, token, round);
            if round >= engine.MaxRounds() then
              end == p.(report := p.report.(reachedFixpoint := Pending(p.arena, engine.MaxRounds()) == []))
            else if token(round) then end == p.(report := p.report.(cancelled := true))
            else if ReadyJobs(p.arena, round) == [] then end == p.(report := p.report.(reachedFixpoint := true))
            else
              var q := Next(engine, source, p, exec, round);
              if CutShort(engine, source, p, exec, round) then end == q.(report := q.report.(cancelled := true))
              else end == RunFrom(engine, source, q, exec, token, round + 1)
  {
  }

  lemma NextTracks<C(!new)>(
      engine: Engine<C>, source: Text, start: Arena<C>, rev: nat, p: Progress<C>, exec: Executor<C>, token: Polls, round: nat)
    requires Contract(exec) && Tracks(engine, source, start, rev, p, round) && Goes(engine, p, token, round)
    ensures Tracks(engine, source, start, rev, Next(engine, source, p, exec, round), round + 1)
  {
    var jobs, run := ReadyJobs(p.arena, round), Runner(engine, source);
    var n := |exec(jobs, run)|;
    assert n <= |jobs| && exec(jobs, run) == Outcomes(jobs, run, n);
    RoundTracks(engine, source, start, rev, p, round, n);
  }

  /**
    * A run with any executor and any cancellation is a legitimate sequence of merges.  No pass
    * meets the same node twice, and there are at most as many rounds as the cap allows.
    */
  lemma {:induction false} RunTracks<C(!new)>(
      engine: Engine<C>, source: Text, start: Arena<C>, rev: nat, p: Progress<C>, exec: Executor<C>, token: Polls, round: nat)
    requires Contract(exec) && Tracks(engine, source, start, rev, p, round)
    ensures Tracks(engine, source, start, rev, RunFrom(engine, source, p, exec, token, round), engine.MaxRounds())
    decreases engine.MaxRounds() - round
  {
    hide Tracks, RunFrom;
    RunUnfolds(engine, source, p, exec, token, round);
    var end := RunFrom(engine, source, p, exec, token, round);
    if !Goes(engine, p, token, round) {
      TracksToTheEnd(engine, source, start, rev, p, round, end.report);
    } else {
      NextTracks(engine, source, start, rev, p, exec, token, round);
      var q := Next(engine, source, p, exec, round);
      if CutShort(engine, source, p, exec, round) {
        TracksToTheEnd(engine, source, start, rev, q, round + 1, end.report);
      } else {
        RunTracks(engine, source, start, rev, q, exec, token, round + 1);
      }
    }
  }

  lemma TrackedIsConsistent<C>(engine: Engine<C>, source: Text, start: Arena<C>, rev: nat, p: Progress<C>, round: nat)
    requires Tracks(engine, source, start, rev, p, round)
    ensures Consistent(p.arena, rev)
  {
  }

  lemma FreshRunTracks<C>(engine: Engine<C>, source: Text, a: Arena<C>, rev: nat)
    requires Consistent(a, rev)
    ensures Tracks(engine, source, a, rev, Progress(a, EMPTY_REPORT, []), 0)
  {
    var none: seq<Job<C>> := [];
    assert NodesOf(none) == [];
  }

  lemma WholeRunTracks<C(!new)>(engine: Engine<C>, source: Text, a: Arena<C>, rev: nat, exec: Executor<C>, token: Polls)
    requires Contract(exec) && Consistent(a, rev)
    ensures Tracks(engine, source, a, rev, Run(engine, source, a, exec, token), engine.MaxRounds())
  {
    FreshRunTracks(engine, source, a, rev);
    RunTracks(engine, source, a, rev, Progress(a, EMPTY_REPORT, []), exec, token, 0);
  }

  // ----- sequences of merges -----

  /** Legitimate merges keep the arena invariant, whoever schedules them. */
  lemma {:induction false} ReplayKeepsConsistent<C>(engine: Engine<C>, source: Text, a: Arena<C>, rev: nat, log: seq<nat>)
    requires Consistent(a, rev) && Legit(engine, source, a, log)
    ensures Consistent(Replay(engine, source, a, log), rev)
  {
    if log != [] {
      var n := |log| - 1;
      ReplayKeepsConsistent(engine, source, a, rev, log[..n]);
      MergeNextKeepsConsistent(engine, source, Replay(engine, source, a, log[..n]), rev, log[n]);
    }
  }
}
