/** What the report of a run says: which attempts failed, which children were rejected, why the run stopped. */
module Reports {
  import opened Spans
  import opened Arenas
  import opened Invariants
  import opened Engines
  import opened Executors
  import opened Freshness
  import opened Runs
  import opened Batches

  /** What the pass of the node's round makes of it. */
  function OutcomeOn<C>(engine: Engine<C>, source: Text, n: Node<C>): Outcome<C> {
    engine.Attempt(source, n.depth, n.span, n.ctx)
  }

  ghost predicate RejectedOn<C>(engine: Engine<C>, source: Text, n: Node<C>) {
    var outcome := OutcomeOn(engine, source, n);
    outcome.Expand? && !AllAdmissible(n.span, outcome.kids, engine.shrink)
  }

  /**
    * `failed` counts the attempts of the log that failed, each on the tree that the attempts before it
    * had left: the pass gave up, or produced an inadmissible child.  `violations` lists, in log order,
    * the first fault of each attempt of the second kind.
    */
  ghost predicate Accounts<C>(engine: Engine<C>, source: Text, a: Arena<C>, log: seq<Job<C>>, failed: nat, violations: seq<Violation>) {
    if log == [] then failed == 0 && violations == []
    else
      var last := |log| - 1;
      var b, id := Replay(engine, source, a, NodesOf(log[..last])), log[last].node;
      && id < |b|
      && if RejectedOn(engine, source, b[id]) then
           && failed > 0 && violations != []
           && NamesFirstFault(violations[|violations| - 1], id, log[last].passIndex, b[id].span,
                              OutcomeOn(engine, source, b[id]).kids, engine.shrink)
           && Accounts(engine, source, a, log[..last], failed - 1, violations[..|violations| - 1])
         else if OutcomeOn(engine, source, b[id]).Fail? then
           failed > 0 && Accounts(engine, source, a, log[..last], failed - 1, violations)
         else Accounts(engine, source, a, log[..last], failed, violations)
  }

  /** The books after one more attempt, on node `n`. */
  ghost predicate Entered<C>(
      engine: Engine<C>, source: Text, n: Node<C>, job: Job<C>, failed: nat, violations: seq<Violation>,
      failed': nat, violations': seq<Violation>)
  {
    if RejectedOn(engine, source, n) then
      && failed' == failed + 1 && |violations'| == |violations| + 1 && violations'[..|violations|] == violations
      && NamesFirstFault(violations'[|violations|], job.node, job.passIndex, n.span, OutcomeOn(engine, source, n).kids, engine.shrink)
    else
      failed' == failed + (if OutcomeOn(engine, source, n).Fail? then 1 else 0) && violations' == violations
  }

  lemma AccountsOneMore<C>(
      engine: Engine<C>, source: Text, a: Arena<C>, log: seq<Job<C>>, job: Job<C>, failed: nat, violations: seq<Violation>,
      failed': nat, violations': seq<Violation>)
    requires Accounts(engine, source, a, log, failed, violations)
    requires var b := Replay(engine, source, a, NodesOf(log));
             job.node < |b| && Entered(engine, source, b[job.node], job, failed, violations, failed', violations')
    ensures Accounts(engine, source, a, log + [job], failed', violations')
  {
    hide Replay, OutcomeOn, RejectedOn, NamesFirstFault, NodesOf;
    var more := log + [job];
    assert more[..|more| - 1] == log && more[|more| - 1] == job;
  }

  lemma TallyAccounts<C>(engine: Engine<C>, source: Text, a: Arena<C>, log: seq<Job<C>>, report: Report, job: Job<C>)
    requires Accounts(engine, source, a, log, report.nodesFailed, report.violations)
    requires var b := Replay(engine, source, a, NodesOf(log)); job.node < |b| && b[job.node].depth == job.passIndex
    ensures var n := Replay(engine, source, a, NodesOf(log))[job.node];
            var outcome := OutcomeOn(engine, source, n);
            var after := Tally(report, job.node, job.passIndex, outcome, Judge(n.span, outcome, engine.shrink));
            Accounts(engine, source, a, log + [job], after.nodesFailed, after.violations)
  {
    hide Replay, Accounts, Entered, Tally, Judge, NodesOf, OutcomeOn;
    var n := Replay(engine, source, a, NodesOf(log))[job.node];
    var outcome := OutcomeOn(engine, source, n);
    var after := Tally(report, job.node, job.passIndex, outcome, Judge(n.span, outcome, engine.shrink));
    TallyEnters(engine, source, report, job, n);
    AccountsOneMore(engine, source, a, log, job, report.nodesFailed, report.violations, after.nodesFailed, after.violations);
  }

  lemma TallyEnters<C>(engine: Engine<C>, source: Text, report: Report, job: Job<C>, n: Node<C>)
    ensures var outcome := OutcomeOn(engine, source, n);
            var after := Tally(report, job.node, job.passIndex, outcome, Judge(n.span, outcome, engine.shrink));
            Entered(engine, source, n, job, report.nodesFailed, report.violations, after.nodesFailed, after.violations)
  {
    var outcome := OutcomeOn(engine, source, n);
    if outcome.Expand? && outcome.kids != [] {
      var fault := FirstFault(n.span, outcome.kids, engine.shrink, 0);
      assert fault.None? <==> AllAdmissible(n.span, outcome.kids, engine.shrink);
    }
  }

  lemma ReportSnoc<C>(engine: Engine<C>, p: Progress<C>, jobs: seq<Job<C>>, run: Job<C> -> Outcome<C>, round: nat, n: nat)
    requires 0 < n <= |jobs|
    ensures var q := MergeBatch(engine, p, Outcomes(jobs, run, n - 1), round);
            var r := MergeBatch(engine, p, Outcomes(jobs, run, n), round);
            var job := jobs[n - 1];
            job.node < |q.arena| ==>
              && r.report == Tally(q.report, job.node, round, run(job), Judge(q.arena[job.node].span, run(job), engine.shrink))
              && r.log == q.log + [job]
  {
    var done := Outcomes(jobs, run, n);
    assert done[..n - 1] == Outcomes(jobs, run, n - 1);
    assert done[n - 1] == (jobs[n - 1], run(jobs[n - 1]));
  }

  /** Merging any prefix of a batch keeps the books. */
  lemma {:induction false} BatchAccounts<C>(
      engine: Engine<C>, source: Text, a: Arena<C>, rev: nat, p: Progress<C>, jobs: seq<Job<C>>, round: nat, n: nat)
    requires Tracks(engine, source, a, rev, p, round) && round < engine.MaxRounds()
    requires IsBatch(p.arena, jobs, round) && n <= |jobs|
    requires Accounts(engine, source, a, p.log, p.report.nodesFailed, p.report.violations)
    ensures var q := MergeBatch(engine, p, Outcomes(jobs, Runner(engine, source), n), round);
            Accounts(engine, source, a, q.log, q.report.nodesFailed, q.report.violations)
  {
    hide Tracks, Accounts, Consistent, Replay, Legit;
    if n == 0 {
      assert Outcomes(jobs, Runner(engine, source), n) == [];
    } else {
      BatchAccounts(engine, source, a, rev, p, jobs, round, n - 1);
      BatchIsReplay(engine, source, a, rev, p, jobs, round, n - 1);
      var q := MergeBatch(engine, p, Outcomes(jobs, Runner(engine, source), n - 1), round);
      hide MergeBatch;
      var job := jobs[n - 1];
      assert q.arena[job.node] == p.arena[job.node];
      ReportSnoc(engine, p, jobs, Runner(engine, source), round, n);
      TallyAccounts(engine, source, a, q.log, q.report, job);
    }
  }

  // ----- rounds -----

  /** Rounds `0` to `m - 1`, and no others, have an attempt in the log. */
  ghost predicate LogsRounds<C>(log: seq<Job<C>>, m: nat) {
    && (forall k | 0 <= k < |log| :: log[k].passIndex < m)
    && (forall r: nat | r < m :: HasRound(log, r))
  }

  ghost predicate HasRound<C>(log: seq<Job<C>>, r: nat) {
    exists k :: 0 <= k < |log| && log[k].passIndex == r
  }

  /** The books before round `round`: all rounds so far have been executed, and the token was found quiet. */
  ghost predicate Booked<C>(engine: Engine<C>, source: Text, a: Arena<C>, p: Progress<C>, token: Polls, round: nat) {
    && Accounts(engine, source, a, p.log, p.report.nodesFailed, p.report.violations)
    && p.report.roundsRun == round && LogsRounds(p.log, round)
    && (forall r: nat | r < round :: !token(r))
    && !p.report.cancelled && !p.report.reachedFixpoint
  }

  /** Why a run stopped. */
  datatype Stop = AtTheCap | TokenFired | NothingReady | BatchRefused | BatchCutShort

  /** What the report says when a run has stopped for this reason after attempts in `m` rounds. */
  ghost predicate Stopped<C>(engine: Engine<C>, source: Text, end: Progress<C>, exec: Executor<C>, token: Polls, m: nat, why: Stop) {
    && LogsRounds(end.log, m) && m <= engine.MaxRounds()
    && (forall r: nat | r < m :: !token(r))
    && (end.report.cancelled <==> why.TokenFired? || why.BatchRefused? || why.BatchCutShort?)
    && end.report.roundsRun == (if why.BatchRefused? then m + 1 else m)
    && match why
       case AtTheCap =>
         m == engine.MaxRounds() && (end.report.reachedFixpoint <==> Pending(end.arena, engine.MaxRounds()) == [])
       case TokenFired => m < engine.MaxRounds() && token(m) && !end.report.reachedFixpoint
       case NothingReady =>
         m < engine.MaxRounds() && !token(m) && ReadyJobs(end.arena, m) == [] && end.report.reachedFixpoint
       case BatchRefused =>
         && m < engine.MaxRounds() && !token(m) && !end.report.reachedFixpoint
         && ReadyJobs(end.arena, m) != [] && exec(ReadyJobs(end.arena, m), Runner(engine, source)) == []
       case BatchCutShort => 0 < m && ReadyJobs(end.arena, m - 1) != [] && !end.report.reachedFixpoint
  }

  lemma LogsNextRound<C>(log: seq<Job<C>>, a: Arena<C>, jobs: seq<Job<C>>, round: nat, n: nat)
    requires LogsRounds(log, round) && IsBatch(a, jobs, round) && 0 < n <= |jobs|
    ensures LogsRounds(log + jobs[..n], round + 1)
  {
    var after := log + jobs[..n];
    forall r: nat | r < round + 1 ensures HasRound(after, r) {
      if r == round {
        assert after[|log|].passIndex == round;
      } else {
        assert HasRound(log, r);
        var k :| 0 <= k < |log| && log[k].passIndex == r;
        assert after[k].passIndex == r;
      }
    }
  }

  /** `q` is where the books stand after a round begun in `p`, of which `n` jobs have been executed. */
  ghost predicate RoundBooked<C>(engine: Engine<C>, source: Text, a: Arena<C>, p: Progress<C>, q: Progress<C>, round: nat, n: nat) {
    && Accounts(engine, source, a, q.log, q.report.nodesFailed, q.report.violations)
    && q.report.roundsRun == round + 1 && !q.report.cancelled && !q.report.reachedFixpoint
    && (if n > 0 then LogsRounds(q.log, round + 1) else q.log == p.log && q.arena == p.arena)
    && (n < |ReadyJobs(p.arena, round)| ==> ReadyJobs(q.arena, round) != [])
  }

  /** The books after the batch of a round, of which `n` jobs have been executed. */
  lemma RoundIsBooked<C>(
      engine: Engine<C>, source: Text, a: Arena<C>, rev: nat, p: Progress<C>, token: Polls, round: nat, n: nat)
    requires Tracks(engine, source, a, rev, p, round) && Booked(engine, source, a, p, token, round)
    requires round < engine.MaxRounds() && n <= |ReadyJobs(p.arena, round)|
    ensures var jobs := ReadyJobs(p.arena, round);
            var q := MergeRound(engine, p, Outcomes(jobs, Runner(engine, source), n), round);
            RoundBooked(engine, source, a, p, q, round, n)
  {
    hide Tracks, Accounts, Consistent, Replay, Legit, MergeBatch, ReadyJobs;
    var jobs := ReadyJobs(p.arena, round);
    ReadyJobsAreABatch(p.arena, round, |p.arena|);
    BatchAccounts(engine, source, a, rev, p, jobs, round, n);
    BatchIsReplay(engine, source, a, rev, p, jobs, round, n);
    BatchKeepsReportFlags(engine, p, Outcomes(jobs, Runner(engine, source), n), round);
    var q := MergeBatch(engine, p, Outcomes(jobs, Runner(engine, source), n), round);
    if n > 0 {
      LogsNextRound(p.log, p.arena, jobs, round, n);
    } else {
      NothingMerged(engine, p, jobs, Runner(engine, source), round);
    }
    if n < |jobs| {
      var k := ReadyJobsMissNone(q.arena, round, |q.arena|, jobs[n].node);
    }
  }

  lemma NothingMerged<C>(engine: Engine<C>, p: Progress<C>, jobs: seq<Job<C>>, run: Job<C> -> Outcome<C>, round: nat)
    ensures MergeBatch(engine, p, Outcomes(jobs, run, 0), round) == p
  {
    assert Outcomes(jobs, run, 0) == [];
  }

  lemma {:induction false} BatchKeepsReportFlags<C>(engine: Engine<C>, p: Progress<C>, executed: Executed<C>, round: nat)
    ensures var q := MergeBatch(engine, p, executed, round).report;
            && q.cancelled == p.report.cancelled && q.reachedFixpoint == p.report.reachedFixpoint
            && q.roundsRun == p.report.roundsRun
  {
    if executed != [] {
      BatchKeepsReportFlags(engine, p, executed[..|executed| - 1], round);
    }
  }

  /** A run that does not go on with this round has kept its books. */
  lemma StopsBooked<C>(
      engine: Engine<C>, source: Text, a: Arena<C>, p: Progress<C>, exec: Executor<C>, token: Polls, round: nat)
      returns (why: Stop)
    requires Booked(engine, source, a, p, token, round) && round <= engine.MaxRounds() && !Goes(engine, p, token, round)
    ensures var end := RunFrom(engine, source, p, exec, token, round);
            && Accounts(engine, source, a, end.log, end.report.nodesFailed, end.report.violations)
            && Stopped(engine, source, end, exec, token, round, why)
  {
    RunUnfolds(engine, source, p, exec, token, round);
    hide RunFrom, Accounts, LogsRounds, ReadyJobs;
    why := if round == engine.MaxRounds() then AtTheCap else if token(round) then TokenFired else NothingReady;
  }

  /** The books after a batch: the run goes on with them, or has been cut short. */
  lemma NextBooked<C(!new)>(
      engine: Engine<C>, source: Text, a: Arena<C>, rev: nat, p: Progress<C>, exec: Executor<C>, token: Polls, round: nat)
      returns (m: nat, why: Stop)
    requires Contract(exec) && Tracks(engine, source, a, rev, p, round) && Booked(engine, source, a, p, token, round)
    requires Goes(engine, p, token, round)
    ensures var q := Next(engine, source, p, exec, round);
            if CutShort(engine, source, p, exec, round) then
              var end := q.(report := q.report.(cancelled := true));
              && Accounts(engine, source, a, end.log, end.report.nodesFailed, end.report.violations)
              && Stopped(engine, source, end, exec, token, m, why)
            else Booked(engine, source, a, q, token, round + 1)
  {
    var jobs, run := ReadyJobs(p.arena, round), Runner(engine, source);
    var n := |exec(jobs, run)|;
    assert n <= |jobs| && exec(jobs, run) == Outcomes(jobs, run, n);
    hide Tracks, Accounts, LogsRounds, ReadyJobs, MergeBatch, Contract, RoundBooked, Booked, Stopped;
    RoundIsBooked(engine, source, a, rev, p, token, round, n);
    m, why := BookedOrStopped(engine, source, a, p, Next(engine, source, p, exec, round), exec, token, round);
  }

  lemma BookedOrStopped<C>(
      engine: Engine<C>, source: Text, a: Arena<C>, p: Progress<C>, q: Progress<C>, exec: Executor<C>, token: Polls, round: nat)
      returns (m: nat, why: Stop)
    requires Booked(engine, source, a, p, token, round) && Goes(engine, p, token, round)
    requires RoundBooked(engine, source, a, p, q, round, |exec(ReadyJobs(p.arena, round), Runner(engine, source))|)
    ensures if CutShort(engine, source, p, exec, round) then
              var end := q.(report := q.report.(cancelled := true));
              && Accounts(engine, source, a, end.log, end.report.nodesFailed, end.report.violations)
              && Stopped(engine, source, end, exec, token, m, why)
            else Booked(engine, source, a, q, token, round + 1)
  {
    hide Accounts, LogsRounds, ReadyJobs;
    if exec(ReadyJobs(p.arena, round), Runner(engine, source)) == [] {
      m, why := round, BatchRefused;
    } else {
      m, why := round + 1, BatchCutShort;
    }
  }

  /** Whatever executes and cancels it, a run keeps its books to the end, and stops for one of five reasons. */
  lemma {:induction false} RunIsBooked<C(!new)>(
      engine: Engine<C>, source: Text, a: Arena<C>, rev: nat, p: Progress<C>, exec: Executor<C>, token: Polls, round: nat)
      returns (m: nat, why: Stop)
    requires Contract(exec) && Tracks(engine, source, a, rev, p, round) && Booked(engine, source, a, p, token, round)
    ensures var end := RunFrom(engine, source, p, exec, token, round);
            && Accounts(engine, source, a, end.log, end.report.nodesFailed, end.report.violations)
            && Stopped(engine, source, end, exec, token, m, why)
    decreases engine.MaxRounds() - round
  {
    CapNotPassed(engine, source, a, rev, p, round);
    hide Tracks, RunFrom, Accounts, Booked, Stopped, Next;
    if !Goes(engine, p, token, round) {
      m := round;
      why := StopsBooked(engine, source, a, p, exec, token, round);
    } else {
      RunUnfolds(engine, source, p, exec, token, round);
      m, why := NextBooked(engine, source, a, rev, p, exec, token, round);
      if !CutShort(engine, source, p, exec, round) {
        NextTracks(engine, source, a, rev, p, exec, token, round);
        m, why := RunIsBooked(engine, source, a, rev, Next(engine, source, p, exec, round), exec, token, round + 1);
      }
    }
  }

  lemma CapNotPassed<C>(engine: Engine<C>, source: Text, a: Arena<C>, rev: nat, p: Progress<C>, round: nat)
    requires Tracks(engine, source, a, rev, p, round)
    ensures round <= engine.MaxRounds()
  {
  }

  /**
    * The report of a run from a consistent tree: the failed attempts are counted and the rejected children
    * listed exactly as the log has them; every executed round is counted; the flags say why the run stopped.
    */
  lemma ReportIsTheLog<C(!new)>(engine: Engine<C>, source: Text, a: Arena<C>, rev: nat, exec: Executor<C>, token: Polls)
      returns (m: nat, why: Stop)
    requires Contract(exec) && Consistent(a, rev)
    ensures var end := Run(engine, source, a, exec, token);
            && Legit(engine, source, a, NodesOf(end.log)) && end.arena == Replay(engine, source, a, NodesOf(end.log))
            && end.report.nodesProcessed == |end.log|
            && Accounts(engine, source, a, end.log, end.report.nodesFailed, end.report.violations)
            && Stopped(engine, source, end, exec, token, m, why)
  {
    FreshRunTracks(engine, source, a, rev);
    WholeRunTracks(engine, source, a, rev, exec, token);
    m, why := RunIsBooked(engine, source, a, rev, Progress(a, EMPTY_REPORT, []), exec, token, 0);
  }
}
