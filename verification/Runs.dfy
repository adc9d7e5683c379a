/** What a run of the engine computes, round by round, and the merges it performs. */
module Runs {
  import opened Spans
  import opened Arenas
  import opened Invariants
  import opened Engines
  import opened Executors
  import opened Freshness

  datatype Violation = Violation(node: nat, round: nat, span: Span, kind: ViolationKind)

  datatype Report = Report(
    roundsRun: nat,
    nodesProcessed: nat,
    nodesFailed: nat,
    reachedFixpoint: bool,
    cancelled: bool,
    violations: seq<Violation>)

  const EMPTY_REPORT := Report(0, 0, 0, false, false, [])

  // ----- queries on the arena -----

  /** The jobs of `round` among the first `n` nodes, in id order. */
  function ReadyJobs<C>(a: Arena<C>, round: nat, n: nat := |a|): (jobs: seq<Job<C>>)
    requires n <= |a|
  {
    if n == 0 then []
    else
      var jobs := ReadyJobs(a, round, n - 1);
      var node := a[n - 1];
      if node.Ready() && node.depth == round then jobs + [Job(n - 1, node.span, node.ctx, round)] else jobs
  }

  /** Work remains on the node within `cap` rounds. */
  predicate IsPending<C>(n: Node<C>, cap: nat) {
    n.alive && (n.status == Unparsed || (n.status == Failed && n.depth < cap))
  }

  /** The pending nodes among the first `n`, in id order. */
  function Pending<C>(a: Arena<C>, cap: nat, n: nat := |a|): seq<nat>
    requires n <= |a|
  {
    if n == 0 then []
    else if IsPending(a[n - 1], cap) then Pending(a, cap, n - 1) + [n - 1]
    else Pending(a, cap, n - 1)
  }

  lemma {:induction false} PendingMembers<C>(a: Arena<C>, cap: nat, n: nat)
    requires n <= |a|
    ensures forall i :: i in Pending(a, cap, n) <==> 0 <= i < n && IsPending(a[i], cap)
    ensures forall j, k | 0 <= j < k < |Pending(a, cap, n)| :: Pending(a, cap, n)[j] < Pending(a, cap, n)[k]
  {
    if n > 0 {
      PendingMembers(a, cap, n - 1);
      var before := Pending(a, cap, n - 1);
      assert forall k | 0 <= k < |before| :: before[k] in before;
    }
  }

  ghost predicate IsBatch<C>(a: Arena<C>, jobs: seq<Job<C>>, round: nat) {
    && (forall k | 0 <= k < |jobs| ::
          jobs[k].node < |a| && a[jobs[k].node].Ready() && a[jobs[k].node].depth == round &&
          jobs[k] == Job(jobs[k].node, a[jobs[k].node].span, a[jobs[k].node].ctx, round))
    && (forall j, k | 0 <= j < k < |jobs| :: jobs[j].node < jobs[k].node)
  }

  /** The batch holds nothing but ready nodes of the round, each once, in id order. */
  lemma {:induction false} ReadyJobsAreABatch<C>(a: Arena<C>, round: nat, n: nat)
    requires n <= |a|
    ensures IsBatch(a, ReadyJobs(a, round, n), round)
    ensures forall k | 0 <= k < |ReadyJobs(a, round, n)| :: ReadyJobs(a, round, n)[k].node < n
  {
    if n > 0 {
      ReadyJobsAreABatch(a, round, n - 1);
    }
  }

  /** The batch misses no ready node of the round. */
  lemma {:induction false} ReadyJobsMissNone<C>(a: Arena<C>, round: nat, n: nat, i: nat) returns (k: nat)
    requires i < n <= |a| && a[i].Ready() && a[i].depth == round
    ensures k < |ReadyJobs(a, round, n)| && ReadyJobs(a, round, n)[k].node == i
  {
    if i == n - 1 {
      k := |ReadyJobs(a, round, n - 1)|;
    } else {
      k := ReadyJobsMissNone(a, round, n - 1, i);
    }
  }

  // ----- merging a batch -----

  /** The merge of one executed job; defined to do nothing on a job that does not fit the arena. */
  ghost function MergeJob<C>(engine: Engine<C>, a: Arena<C>, id: nat, outcome: Outcome<C>): Arena<C> {
    if id < |a| && InRange(a, a[id].children) then Merge(a, id, Judge(a[id].span, outcome, engine.shrink)) else a
  }

  /** `violation` is about the first inadmissible child, and about the first demand that it breaks. */
  ghost predicate NamesFirstFault<C>(violation: Violation, id: nat, round: nat, span: Span, kids: seq<Kid<C>>, shrink: bool) {
    exists k ::
      && 0 <= k < |kids| && !Admissible(span, kids[k].0, shrink)
      && (forall j | 0 <= j < k :: Admissible(span, kids[j].0, shrink))
      && violation.node == id && violation.round == round && violation.span == kids[k].0
      && Breaks(span, kids[k].0, shrink, violation.kind)
  }

  /** Every produced child is admissible. */
  ghost predicate AllAdmissible<C>(span: Span, kids: seq<Kid<C>>, shrink: bool) {
    forall k | 0 <= k < |kids| :: Admissible(span, kids[k].0, shrink)
  }

  /** The report after a verdict: failures are counted, rejected children are recorded. */
  function Tally<C>(report: Report, id: nat, round: nat, outcome: Outcome<C>, v: Verdict<C>): Report {
    if !v.Failing? then report
    else
      var counted := report.(nodesFailed := report.nodesFailed + 1);
      if v.reason.Rejected? && outcome.Expand? && v.reason.slot < |outcome.kids| then
        counted.(violations := report.violations + [Violation(id, round, outcome.kids[v.reason.slot].0, v.reason.kind)])
      else counted
  }

  /**
    * A failure is counted exactly when the pass gave up or produced a faulty child, and in the
    * second case the recorded violation is the first faulty child with its fault.
    */
  lemma TallyRecordsFirstFault<C>(report: Report, id: nat, round: nat, span: Span, outcome: Outcome<C>, shrink: bool)
    ensures var after := Tally(report, id, round, outcome, Judge(span, outcome, shrink));
            var faulty := outcome.Expand? && exists k | 0 <= k < |outcome.kids| :: KidFault<C>(span, outcome.kids[k].0, shrink).Some?;
            && after.nodesFailed == report.nodesFailed + (if outcome.Fail? || faulty then 1 else 0)
            && (!faulty ==> after.violations == report.violations)
            && (faulty ==> exists k | 0 <= k < |outcome.kids| ::
                  && KidFault<C>(span, outcome.kids[k].0, shrink).Some?
                  && (forall j | 0 <= j < k :: KidFault<C>(span, outcome.kids[j].0, shrink).None?)
                  && after.violations == report.violations +
                     [Violation(id, round, outcome.kids[k].0, KidFault<C>(span, outcome.kids[k].0, shrink).value)])
  {
    if outcome.Expand? && outcome.kids != [] {
      var fault := FirstFault(span, outcome.kids, shrink, 0);
      if fault.Some? {
        assert KidFault<C>(span, outcome.kids[fault.value.0].0, shrink) == Some(fault.value.1);
      }
    }
  }

  /** Where a run stands: the tree, the report so far, and the jobs merged so far. */
  datatype Progress<C> = Progress(arena: Arena<C>, report: Report, log: seq<Job<C>>)

  /** The tree and report after merging the executed jobs in order. */
  ghost function MergeBatch<C>(engine: Engine<C>, p: Progress<C>, executed: Executed<C>, round: nat): Progress<C> {
    if executed == [] then p
    else
      var q := MergeBatch(engine, p, executed[..|executed| - 1], round);
      var (job, outcome) := executed[|executed| - 1];
      if job.node < |q.arena| then
        Progress(
          MergeJob(engine, q.arena, job.node, outcome),
          Tally(q.report, job.node, round, outcome, Judge(q.arena[job.node].span, outcome, engine.shrink)),
          q.log + [job])
      else q
  }

  /** A merged batch counts as one round. */
  ghost function MergeRound<C>(engine: Engine<C>, p: Progress<C>, executed: Executed<C>, round: nat): Progress<C> {
    var q := MergeBatch(engine, p, executed, round);
    q.(report := q.report.(
      roundsRun := q.report.roundsRun + 1,
      nodesProcessed := q.report.nodesProcessed + |executed|))
  }

  // ----- a run -----

  /** The engine's `run` closure for one source. */
  function Runner<C>(engine: Engine<C>, source: Text): Job<C> -> Outcome<C> {
    (job: Job<C>) => engine.Attempt(source, job.passIndex, job.span, job.ctx)
  }

  /** The rest of a run, from round `round` on; `token(r)` is what the poll before round `r` finds. */
  ghost function RunFrom<C>(engine: Engine<C>, source: Text, p: Progress<C>, exec: Executor<C>, token: Polls, round: nat): Progress<C>
    decreases engine.MaxRounds() - round
  {
    if round >= engine.MaxRounds() then
      p.(report := p.report.(reachedFixpoint := Pending(p.arena, engine.MaxRounds()) == []))
    else if token(round) then
      p.(report := p.report.(cancelled := true))
    else
      var jobs := ReadyJobs(p.arena, round);
      if jobs == [] then p.(report := p.report.(reachedFixpoint := true))
      else
        var executed := exec(jobs, Runner(engine, source));
        var q := MergeRound(engine, p, executed, round);
        if |executed| < |jobs| then q.(report := q.report.(cancelled := true))
        else RunFrom(engine, source, q, exec, token, round + 1)
  }

  ghost function Run<C>(engine: Engine<C>, source: Text, a: Arena<C>, exec: Executor<C>, token: Polls): Progress<C> {
    RunFrom(engine, source, Progress(a, EMPTY_REPORT, []), exec, token, 0)
  }

  /** Executors that agree on every batch give the same tree and the same report. */
  lemma {:induction false} RunDependsOnCutsOnly<C(!new)>(
      engine: Engine<C>, source: Text, p: Progress<C>, exec: Executor<C>, exec': Executor<C>, token: Polls, round: nat)
    requires Contract(exec) && Contract(exec')
    requires forall jobs: seq<Job<C>> :: |exec(jobs, Runner(engine, source))| == |exec'(jobs, Runner(engine, source))|
    ensures RunFrom(engine, source, p, exec, token, round) == RunFrom(engine, source, p, exec', token, round)
    decreases engine.MaxRounds() - round
  {
    if round < engine.MaxRounds() && !token(round) {
      var jobs := ReadyJobs(p.arena, round);
      var run := Runner(engine, source);
      assert exec(jobs, run) == Outcomes(jobs, run, |exec(jobs, run)|);
      assert exec'(jobs, run) == Outcomes(jobs, run, |exec'(jobs, run)|);
      if jobs != [] {
        var q := MergeRound(engine, p, exec(jobs, run), round);
        RunDependsOnCutsOnly(engine, source, q, exec, exec', token, round + 1);
      }
    }
  }

  /** The serial executor; `polls` tells for each batch what its polls of the token find. */
  function SerialExecutor<C>(polls: seq<Job<C>> -> Polls): Executor<C> {
    (jobs: seq<Job<C>>, run: Job<C> -> Outcome<C>) => Outcomes(jobs, run, FirstCancelled(polls(jobs), |jobs|))
  }

  /** The parallel executor; every slot of a batch polls on its own. */
  function ParallelExecutor<C>(polls: seq<Job<C>> -> Polls): Executor<C> {
    (jobs: seq<Job<C>>, run: Job<C> -> Outcome<C>) => ParallelExecute(jobs, run, polls(jobs))
  }

  /** Where an executor cuts each batch, as polls of a serial one. */
  function CutsOf<C>(exec: Executor<C>, run: Job<C> -> Outcome<C>): seq<Job<C>> -> Polls {
    (jobs: seq<Job<C>>) => (k: nat) => k >= |exec(jobs, run)|
  }

  lemma ExecutorsKeepTheContract<C(!new)>(polls: seq<Job<C>> -> Polls)
    ensures Contract(SerialExecutor(polls)) && Contract(ParallelExecutor(polls))
  {
    forall jobs: seq<Job<C>>, run: Job<C> -> Outcome<C>
      ensures |SerialExecutor(polls)(jobs, run)| <= |jobs| && |ParallelExecutor(polls)(jobs, run)| <= |jobs|
      ensures SerialExecutor(polls)(jobs, run) == Outcomes(jobs, run, |SerialExecutor(polls)(jobs, run)|)
      ensures ParallelExecutor(polls)(jobs, run) == Outcomes(jobs, run, |ParallelExecutor(polls)(jobs, run)|)
    {
      ParallelIsSerial(jobs, run, polls(jobs));
    }
  }

  /** A run with any executor is a serial run cut at the same points: same tree, same report. */
  lemma AnyRunIsASerialRun<C(!new)>(engine: Engine<C>, source: Text, a: Arena<C>, exec: Executor<C>, token: Polls)
    requires Contract(exec)
    ensures Run(engine, source, a, exec, token) ==
            Run(engine, source, a, SerialExecutor(CutsOf(exec, Runner(engine, source))), token)
  {
    var run := Runner(engine, source);
    var serial := SerialExecutor(CutsOf(exec, run));
    ExecutorsKeepTheContract(CutsOf(exec, run));
    forall jobs: seq<Job<C>> ensures |exec(jobs, run)| == |serial(jobs, run)| {
      ContractMeansSerialCut(exec, jobs, run);
      assert |exec(jobs, run)| <= |jobs|;
      SameCut(CutsOf(exec, run)(jobs), |exec(jobs, run)|, |jobs|);
    }
    RunDependsOnCutsOnly(engine, source, Progress(a, EMPTY_REPORT, []), exec, serial, token, 0);
  }

  lemma SameCut(polls: Polls, n: nat, size: nat)
    requires n <= size && forall k: nat :: polls(k) <==> k >= n
    ensures FirstCancelled(polls, size) == n
  {
    assert n < size ==> polls(n);
    assert FirstCancelled(polls, size) < size ==> polls(FirstCancelled(polls, size));
  }

  /** A parallel run is the serial run with the same cancellation pattern. */
  lemma ParallelRunIsASerialRun<C(!new)>(engine: Engine<C>, source: Text, a: Arena<C>, polls: seq<Job<C>> -> Polls, token: Polls)
    ensures Run(engine, source, a, ParallelExecutor(polls), token) == Run(engine, source, a, SerialExecutor(polls), token)
  {
    ExecutorsKeepTheContract(polls);
    forall jobs: seq<Job<C>>
      ensures |ParallelExecutor(polls)(jobs, Runner(engine, source))| == |SerialExecutor(polls)(jobs, Runner(engine, source))|
    {
      ParallelIsSerial(jobs, Runner(engine, source), polls(jobs));
    }
    RunDependsOnCutsOnly(engine, source, Progress(a, EMPTY_REPORT, []), ParallelExecutor(polls), SerialExecutor(polls), token, 0);
  }

  // ----- a run is a sequence of merges on ready nodes -----

  /** Below the round cap and waiting for a pass. */
  ghost predicate Workable<C>(n: Node<C>, cap: nat) {
    n.Ready() && n.depth < cap
  }

  /** Merge on `id` the verdict of its own round. */
  ghost function MergeNext<C>(engine: Engine<C>, source: Text, a: Arena<C>, id: nat): Arena<C> {
    if id < |a| && InRange(a, a[id].children) then Merge(a, id, NextVerdict(engine, source, a[id])) else a
  }

  ghost function Replay<C>(engine: Engine<C>, source: Text, a: Arena<C>, log: seq<nat>): Arena<C> {
    if log == [] then a
    else MergeNext(engine, source, Replay(engine, source, a, log[..|log| - 1]), log[|log| - 1])
  }

  /** Every logged merge found its node live, ready and below the cap. */
  ghost predicate Legit<C>(engine: Engine<C>, source: Text, a: Arena<C>, log: seq<nat>) {
    log != [] ==>
      var b := Replay(engine, source, a, log[..|log| - 1]);
      var id := log[|log| - 1];
      Legit(engine, source, a, log[..|log| - 1]) && id < |b| && Workable(b[id], engine.MaxRounds())
  }
}
