/** How a round's batch of jobs is executed. */
module Executors {
  import opened Spans
  import opened Arenas

  datatype Job<C> = Job(node: nat, span: Span, ctx: C, passIndex: nat)

  type Executed<C> = seq<(Job<C>, Outcome<C>)>

  /** The first `n` jobs, each with its outcome, in input order. */
  function Outcomes<C>(jobs: seq<Job<C>>, run: Job<C> -> Outcome<C>, n: nat): (done: Executed<C>)
    requires n <= |jobs|
    ensures |done| == n
  {
    seq(n, k requires 0 <= k < |jobs| => (jobs[k], run(jobs[k])))
  }

  type Executor<!C> = (seq<Job<C>>, Job<C> -> Outcome<C>) -> Executed<C>

  /** What an executor promises: an executed prefix of the batch, in input order. */
  ghost predicate Contract<C(!new)>(exec: Executor<C>) {
    forall jobs: seq<Job<C>>, run: Job<C> -> Outcome<C> ::
      |exec(jobs, run)| <= |jobs| && exec(jobs, run) == Outcomes(jobs, run, |exec(jobs, run)|)
  }

  /** An executor that is never cut short. */
  ghost predicate Complete<C(!new)>(exec: Executor<C>) {
    Contract(exec) && forall jobs: seq<Job<C>>, run: Job<C> -> Outcome<C> :: |exec(jobs, run)| == |jobs|
  }

  /** The answers the cancellation token gives to successive polls. */
  type Polls = nat -> bool

  /** The first of `n` polls that finds the token cancelled, or `n`. */
  function FirstCancelled(polls: Polls, n: nat, from: nat := 0): (k: nat)
    requires from <= n
    ensures from <= k <= n
    ensures k < n ==> polls(k)
    ensures forall j: nat | from <= j < k :: !polls(j)
    decreases n - from
  {
    if from == n || polls(from) then from else FirstCancelled(polls, n, from + 1)
  }

  function NeverCancelled(): Polls {
    (k: nat) => false
  }

  /** Executes every job of every batch. */
  function FullExecutor<C>(): Executor<C> {
    (jobs: seq<Job<C>>, run: Job<C> -> Outcome<C>) => Outcomes(jobs, run, |jobs|)
  }

  lemma FullExecutorIsComplete<C(!new)>()
    ensures Complete(FullExecutor<C>())
  {
  }

  /** `SerialExecutor`: one job at a time, polling the token before each. */
  method SerialExecute<C>(jobs: seq<Job<C>>, run: Job<C> -> Outcome<C>, polls: Polls) returns (executed: Executed<C>)
    ensures executed == Outcomes(jobs, run, FirstCancelled(polls, |jobs|))
  {
    executed := [];
    for i := 0 to |jobs|
      invariant executed == Outcomes(jobs, run, i)
      invariant forall j: nat | j < i :: !polls(j)
    {
      if polls(i) {
        break;
      }
      var outcome := run(jobs[i]);
      executed := executed + [(jobs[i], outcome)];
    }
  }

  /** The filled slots in front of the first empty one. */
  function TakeWhileFilled<T>(slots: seq<Option<T>>): seq<T> {
    if slots == [] || slots[0].None? then [] else [slots[0].value] + TakeWhileFilled(slots[1..])
  }

  /** `RayonExecutor`: every slot polls on its own; the results collapse to a prefix. */
  function ParallelExecute<C>(jobs: seq<Job<C>>, run: Job<C> -> Outcome<C>, polls: Polls): Executed<C> {
    TakeWhileFilled(seq(|jobs|, k requires 0 <= k < |jobs| => if polls(k) then None else Some((jobs[k], run(jobs[k])))))
  }

  /** Whatever slots find the token cancelled, the parallel executor returns what the serial one would. */
  lemma ParallelIsSerial<C>(jobs: seq<Job<C>>, run: Job<C> -> Outcome<C>, polls: Polls)
    ensures ParallelExecute(jobs, run, polls) == Outcomes(jobs, run, FirstCancelled(polls, |jobs|))
  {
    var slots := seq(|jobs|, k requires 0 <= k < |jobs| => if polls(k) then None else Some((jobs[k], run(jobs[k]))));
    var n := FirstCancelled(polls, |jobs|);
    TakenPrefix(slots, n);
  }

  lemma {:induction false} TakenPrefix<T>(slots: seq<Option<T>>, n: nat)
    requires n <= |slots|
    requires forall k | 0 <= k < n :: slots[k].Some?
    requires n < |slots| ==> slots[n].None?
    ensures |TakeWhileFilled(slots)| == n
    ensures forall k | 0 <= k < n :: TakeWhileFilled(slots)[k] == slots[k].value
  {
    if n > 0 {
      TakenPrefix(slots[1..], n - 1);
    }
  }

  /** Every executor that keeps the contract behaves, batch by batch, as the serial one cut at the same point. */
  lemma ContractMeansSerialCut<C(!new)>(exec: Executor<C>, jobs: seq<Job<C>>, run: Job<C> -> Outcome<C>)
    requires Contract(exec)
    ensures exec(jobs, run) == Outcomes(jobs, run, FirstCancelled(k => k >= |exec(jobs, run)|, |jobs|))
  {
    var n := |exec(jobs, run)|;
    assert n <= |jobs|;
    var polls: Polls := k => k >= n;
    var m := FirstCancelled(polls, |jobs|);
    assert m < |jobs| ==> polls(m);
    assert n < |jobs| ==> polls(n);
  }
}
