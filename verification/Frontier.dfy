/** When an empty round means that nothing is left to do. */
module Frontier {
  import opened Spans
  import opened Arenas
  import opened Invariants
  import opened Edits
  import opened Engines
  import opened Executors
  import opened Freshness
  import opened Runs
  import opened Batches
  import opened Soundness
  import opened Reference

  /** Pending work: with `all` whatever `pending` lists, otherwise only what a pass below the cap could do. */
  predicate Open<C>(n: Node<C>, cap: nat, all: bool) {
    n.alive && ((n.status == Unparsed && (all || n.depth < cap)) || (n.status == Failed && n.depth < cap))
  }

  ghost predicate NoneOpen<C>(a: Arena<C>, cap: nat, all: bool) {
    forall i | 0 <= i < |a| :: !Open(a[i], cap, all)
  }

  /** The parent is still unparsed, exactly one round shallower. */
  ghost predicate Behind<C>(a: Arena<C>, i: nat) {
    && 0 < i < |a| && a[i].parent.Some? && a[i].parent.value < i
    && a[a[i].parent.value].alive && a[a[i].parent.value].status == Unparsed
    && a[a[i].parent.value].depth + 1 == a[i].depth
  }

  /** Open nodes wait in `round`, or wait for their unparsed parent one round ahead of them. */
  ghost predicate Front<C>(a: Arena<C>, cap: nat, all: bool, round: nat) {
    forall i: nat {:trigger Open(a[i], cap, all)} ::
      i < |a| && Open(a[i], cap, all) ==> a[i].depth >= round && (a[i].depth == round || Behind(a, i))
  }

  /** The same in the middle of a round: some of its nodes have already moved on. */
  ghost predicate FrontWithin<C>(a: Arena<C>, cap: nat, all: bool, round: nat) {
    forall i: nat {:trigger Open(a[i], cap, all)} ::
      i < |a| && Open(a[i], cap, all) ==> a[i].depth >= round && (a[i].depth <= round + 1 || Behind(a, i))
  }

  // ----- one round -----

  lemma MergeKeepsFrontWithin<C>(engine: Engine<C>, source: Text, a: Arena<C>, id: nat, cap: nat, all: bool, round: nat)
    requires Shape(a) && id < |a| && a[id].Ready() && a[id].depth == round && FrontWithin(a, cap, all, round)
    ensures FrontWithin(MergeNext(engine, source, a, id), cap, all, round)
  {
    var v := NextVerdict(engine, source, a[id]);
    MergeEffect(a, id, v);
    hide Merge;
    MergedKeepsFrontWithin(a, MergeNext(engine, source, a, id), id, v, cap, all, round);
  }

  lemma MergedKeepsFrontWithin<C>(a: Arena<C>, b: Arena<C>, id: nat, v: Verdict<C>, cap: nat, all: bool, round: nat)
    requires Merged(a, b, id, v) && a[id].depth == round && FrontWithin(a, cap, all, round)
    ensures FrontWithin(b, cap, all, round)
  {
    forall i: nat | i < |b| && Open(b[i], cap, all)
      ensures b[i].depth >= round && (b[i].depth <= round + 1 || Behind(b, i))
    {
      if i < |a| && i != id {
        assert b[i] == a[i];
        assert Open(a[i], cap, all);
        if a[i].depth > round + 1 {
          StaysBehind(a, b, id, v, i);
        }
      }
    }
  }

  /** The merge of a node of an earlier round leaves a node behind its own parent. */
  lemma StaysBehind<C>(a: Arena<C>, b: Arena<C>, id: nat, v: Verdict<C>, i: nat)
    requires Merged(a, b, id, v) && i < |a| && b[i] == a[i] && a[i].alive && Behind(a, i) && a[i].depth > a[id].depth + 1
    ensures Behind(b, i)
  {
    var p := a[i].parent.value;
    assert a[p].depth > a[id].depth && p != id;
    assert Listed(b, i);
    assert b[p].alive;
    assert b[p] == a[p];
  }

  /** The ready nodes of the round are among the jobs still to be merged. */
  ghost predicate OnlyJobsRemain<C>(a: Arena<C>, round: nat, ids: seq<nat>) {
    forall i: nat | i < |a| && a[i].Ready() && a[i].depth == round :: i in ids
  }

  lemma MergeCrossesOff<C>(engine: Engine<C>, source: Text, a: Arena<C>, id: nat, round: nat, ids: seq<nat>, k: nat)
    requires Shape(a) && id < |a| && a[id].Ready() && a[id].depth == round
    requires k < |ids| && ids[k] == id && OnlyJobsRemain(a, round, ids[k..])
    ensures OnlyJobsRemain(MergeNext(engine, source, a, id), round, ids[k + 1..])
  {
    var v := NextVerdict(engine, source, a[id]);
    MergeEffect(a, id, v);
    hide Merge;
    MergedCrossesOff(a, MergeNext(engine, source, a, id), id, v, round, ids, k);
  }

  lemma MergedCrossesOff<C>(a: Arena<C>, b: Arena<C>, id: nat, v: Verdict<C>, round: nat, ids: seq<nat>, k: nat)
    requires Merged(a, b, id, v) && a[id].depth == round
    requires k < |ids| && ids[k] == id && OnlyJobsRemain(a, round, ids[k..])
    ensures OnlyJobsRemain(b, round, ids[k + 1..])
  {
    assert ids[k..] == [id] + ids[k + 1..];
    forall i: nat | i < |b| && b[i].Ready() && b[i].depth == round ensures i in ids[k + 1..] {
      assert i < |a| && i != id && b[i] == a[i];
      assert i in ids[k..];
    }
  }

  /** After the first `n` jobs of a round: the front has moved on, and only the other jobs remain. */
  lemma {:induction false} BatchMovesFront<C>(
      engine: Engine<C>, source: Text, start: Arena<C>, rev: nat, p: Progress<C>, round: nat, n: nat, cap: nat, all: bool)
    requires Tracks(engine, source, start, rev, p, round) && round < engine.MaxRounds()
    requires Front(p.arena, cap, all, round) && n <= |ReadyJobs(p.arena, round)|
    ensures var jobs := ReadyJobs(p.arena, round);
            var b := MergeBatch(engine, p, Outcomes(jobs, Runner(engine, source), n), round).arena;
            FrontWithin(b, cap, all, round) && OnlyJobsRemain(b, round, NodesOf(jobs)[n..])
  {
    hide Tracks, Midway, Consistent, ReadyJobs, Shape, MergeNext;
    var jobs := ReadyJobs(p.arena, round);
    if n == 0 {
      assert Outcomes(jobs, Runner(engine, source), n) == [];
      BatchIsEverything(p.arena, round);
      FrontIsFrontWithin(p.arena, cap, all, round);
      assert MergeBatch(engine, p, Outcomes(jobs, Runner(engine, source), n), round) == p;
    } else {
      hide Front, FrontWithin, OnlyJobsRemain;
      BatchMovesFront(engine, source, start, rev, p, round, n - 1, cap, all);
      var q := MergeBatch(engine, p, Outcomes(jobs, Runner(engine, source), n - 1), round).arena;
      BatchAdvances(engine, source, start, rev, p, round, n);
      MergeKeepsFrontWithin(engine, source, q, jobs[n - 1].node, cap, all, round);
      MergeCrossesOff(engine, source, q, jobs[n - 1].node, round, NodesOf(jobs), n - 1);
    }
  }

  lemma FrontIsFrontWithin<C>(a: Arena<C>, cap: nat, all: bool, round: nat)
    requires Front(a, cap, all, round)
    ensures FrontWithin(a, cap, all, round)
  {
  }

  lemma BatchIsEverything<C>(a: Arena<C>, round: nat)
    ensures OnlyJobsRemain(a, round, NodesOf(ReadyJobs(a, round))[0..])
  {
    var ids := NodesOf(ReadyJobs(a, round));
    forall i: nat | i < |a| && a[i].Ready() && a[i].depth == round ensures i in ids {
      var k := ReadyJobsMissNone(a, round, |a|, i);
      assert ids[k] == i;
    }
    assert ids[0..] == ids;
  }

  /** Job `n - 1` of a batch is merged on a node that is ready in this round. */
  lemma BatchAdvances<C>(engine: Engine<C>, source: Text, start: Arena<C>, rev: nat, p: Progress<C>, round: nat, n: nat)
    requires Tracks(engine, source, start, rev, p, round) && round < engine.MaxRounds()
    requires 0 < n <= |ReadyJobs(p.arena, round)|
    ensures var jobs := ReadyJobs(p.arena, round);
            var q := MergeBatch(engine, p, Outcomes(jobs, Runner(engine, source), n - 1), round).arena;
            var id := jobs[n - 1].node;
            && Shape(q) && id < |q| && q[id].Ready() && q[id].depth == round
            && MergeBatch(engine, p, Outcomes(jobs, Runner(engine, source), n), round).arena == MergeNext(engine, source, q, id)
  {
    hide Tracks, MergeNext, MergeJob, IsBatch;
    var jobs := ReadyJobs(p.arena, round);
    ReadyJobsAreABatch(p.arena, round, |p.arena|);
    BatchIsReplay(engine, source, start, rev, p, jobs, round, n - 1);
    var q := MergeBatch(engine, p, Outcomes(jobs, Runner(engine, source), n - 1), round);
    BatchStep(engine, source, p.arena, q.arena, rev, jobs, round, n - 1);
    MergeBatchSnoc(engine, p, jobs, Runner(engine, source), round, n);
  }

  /** A complete round moves the whole front to the next round. */
  lemma RoundMovesFront<C>(engine: Engine<C>, source: Text, start: Arena<C>, rev: nat, p: Progress<C>, round: nat, cap: nat, all: bool)
    requires Tracks(engine, source, start, rev, p, round) && round < engine.MaxRounds()
    requires Front(p.arena, cap, all, round)
    ensures var jobs := ReadyJobs(p.arena, round);
            Front(MergeRound(engine, p, Outcomes(jobs, Runner(engine, source), |jobs|), round).arena, cap, all, round + 1)
  {
    hide Tracks;
    var jobs := ReadyJobs(p.arena, round);
    BatchMovesFront(engine, source, start, rev, p, round, |jobs|, cap, all);
    var b := MergeBatch(engine, p, Outcomes(jobs, Runner(engine, source), |jobs|), round).arena;
    forall i: nat | i < |b| && Open(b[i], cap, all)
      ensures b[i].depth >= round + 1 && (b[i].depth == round + 1 || Behind(b, i))
    {
      assert b[i].depth != round;
    }
  }

  /** An empty round on the front means nothing is open. */
  lemma {:induction false} EmptyRoundIsQuiet<C>(a: Arena<C>, cap: nat, all: bool, round: nat, i: nat)
    requires ReadyJobs(a, round) == [] && Front(a, cap, all, round) && i < |a|
    ensures !Open(a[i], cap, all)
    decreases i
  {
    if Open(a[i], cap, all) {
      assert a[i].depth == round || Behind(a, i);
      if a[i].depth == round {
        var k := ReadyJobsMissNone(a, round, |a|, i);
      } else {
        EmptyRoundIsQuiet(a, cap, all, round, a[i].parent.value);
      }
    }
  }

  // ----- a whole run -----

  lemma {:induction false} BatchKeepsFlags<C>(engine: Engine<C>, p: Progress<C>, executed: Executed<C>, round: nat)
    ensures var q := MergeBatch(engine, p, executed, round).report;
            && q.cancelled == p.report.cancelled && q.reachedFixpoint == p.report.reachedFixpoint
            && q.nodesProcessed == p.report.nodesProcessed
  {
    if executed != [] {
      BatchKeepsFlags(engine, p, executed[..|executed| - 1], round);
    }
  }

  lemma NoneOpenIsNothingPending<C>(a: Arena<C>, cap: nat)
    ensures NoneOpen(a, cap, true) <==> Pending(a, cap) == []
    ensures NoneOpen(a, cap, false) <==> Quiet(a, cap)
  {
    PendingMembers(a, cap, |a|);
    if Pending(a, cap) == [] {
      forall i: nat | i < |a| ensures !Open(a[i], cap, true) {
        assert i !in Pending(a, cap);
      }
    }
    if Pending(a, cap) != [] {
      assert Pending(a, cap)[0] in Pending(a, cap);
    }
  }

  /** What a run that was not cut short says about the tree it leaves. */
  ghost predicate Reports<C>(end: Progress<C>, cap: nat, all: bool) {
    && (end.report.reachedFixpoint && all ==> NoneOpen(end.arena, cap, true))
    && (!end.report.cancelled && all && NoneOpen(end.arena, cap, true) ==> end.report.reachedFixpoint)
    && (!end.report.cancelled && !all ==> NoneOpen(end.arena, cap, false))
  }

  lemma StoppedRunReports<C>(
      engine: Engine<C>, source: Text, p: Progress<C>, exec: Executor<C>, token: Polls, round: nat, all: bool)
    requires round <= engine.MaxRounds() && Front(p.arena, engine.MaxRounds(), all, round)
    requires !p.report.reachedFixpoint && !Goes(engine, p, token, round)
    ensures Reports(RunFrom(engine, source, p, exec, token, round), engine.MaxRounds(), all)
  {
    var cap := engine.MaxRounds();
    RunUnfolds(engine, source, p, exec, token, round);
    hide RunFrom, Front;
    NoneOpenIsNothingPending(p.arena, cap);
    if round == cap {
      FrontAtTheCap(p.arena, cap, all);
    } else if !token(round) {
      forall i: nat | i < |p.arena| ensures !Open(p.arena[i], cap, all) {
        EmptyRoundIsQuiet(p.arena, cap, all, round, i);
      }
    }
  }

  lemma FrontAtTheCap<C>(a: Arena<C>, cap: nat, all: bool)
    requires Front(a, cap, all, cap)
    ensures NoneOpen(a, cap, false)
  {
    forall i: nat | i < |a| ensures !Open(a[i], cap, false) {
      if Open(a[i], cap, false) {
        assert Open(a[i], cap, all);
      }
    }
  }

  /**
    * Started on a front, a run that is not cut short works everything off, and its fixpoint flag
    * says exactly whether anything is still pending.
    */
  lemma {:induction false} RunReports<C(!new)>(
      engine: Engine<C>, source: Text, start: Arena<C>, rev: nat, p: Progress<C>, exec: Executor<C>, token: Polls, round: nat, all: bool)
    requires Contract(exec) && Tracks(engine, source, start, rev, p, round)
    requires Front(p.arena, engine.MaxRounds(), all, round)
    requires !p.report.reachedFixpoint
    ensures Reports(RunFrom(engine, source, p, exec, token, round), engine.MaxRounds(), all)
    decreases engine.MaxRounds() - round
  {
    TracksRound(engine, source, start, rev, p, round);
    hide Tracks, RunFrom, Front, NoneOpen, Contract, MergeBatch, Next;
    if !Goes(engine, p, token, round) {
      StoppedRunReports(engine, source, p, exec, token, round, all);
    } else {
      RunUnfolds(engine, source, p, exec, token, round);
      NextFront(engine, source, start, rev, p, exec, token, round, all);
      if !CutShort(engine, source, p, exec, round) {
        NextTracks(engine, source, start, rev, p, exec, token, round);
        RunReports(engine, source, start, rev, Next(engine, source, p, exec, round), exec, token, round + 1, all);
      }
    }
  }

  lemma NextFront<C(!new)>(
      engine: Engine<C>, source: Text, start: Arena<C>, rev: nat, p: Progress<C>, exec: Executor<C>, token: Polls, round: nat, all: bool)
    requires Contract(exec) && Tracks(engine, source, start, rev, p, round) && Goes(engine, p, token, round)
    requires Front(p.arena, engine.MaxRounds(), all, round)
    ensures var q := Next(engine, source, p, exec, round);
            && q.report.reachedFixpoint == p.report.reachedFixpoint && q.report.cancelled == p.report.cancelled
            && (!CutShort(engine, source, p, exec, round) ==> Front(q.arena, engine.MaxRounds(), all, round + 1))
  {
    hide Tracks, Front, ReadyJobs, MergeBatch;
    var jobs, run := ReadyJobs(p.arena, round), Runner(engine, source);
    assert |exec(jobs, run)| <= |jobs| && exec(jobs, run) == Outcomes(jobs, run, |exec(jobs, run)|);
    BatchKeepsFlags(engine, p, exec(jobs, run), round);
    RoundMovesFront(engine, source, start, rev, p, round, engine.MaxRounds(), all);
  }

  lemma TracksRound<C>(engine: Engine<C>, source: Text, start: Arena<C>, rev: nat, p: Progress<C>, round: nat)
    requires Tracks(engine, source, start, rev, p, round)
    ensures round <= engine.MaxRounds()
  {
  }

  /** The fixpoint flag of a run started on a front is truthful. */
  lemma FixpointIsSound<C(!new)>(engine: Engine<C>, source: Text, a: Arena<C>, rev: nat, exec: Executor<C>, token: Polls)
    requires Contract(exec) && Consistent(a, rev) && Front(a, engine.MaxRounds(), true, 0)
    ensures var end := Run(engine, source, a, exec, token);
            && (end.report.reachedFixpoint ==> Pending(end.arena, engine.MaxRounds()) == [])
            && (!end.report.cancelled ==> (end.report.reachedFixpoint <==> Pending(end.arena, engine.MaxRounds()) == []))
  {
    FreshRunTracks(engine, source, a, rev);
    RunReports(engine, source, a, rev, Progress(a, EMPTY_REPORT, []), exec, token, 0, true);
    NoneOpenIsNothingPending(Run(engine, source, a, exec, token).arena, engine.MaxRounds());
  }

  /** A run started on a front of the workable nodes, and not cut short, leaves no workable node. */
  lemma RunWorksEverythingOff<C(!new)>(engine: Engine<C>, source: Text, a: Arena<C>, rev: nat, exec: Executor<C>, token: Polls)
    requires Contract(exec) && Consistent(a, rev) && Front(a, engine.MaxRounds(), false, 0)
    ensures var end := Run(engine, source, a, exec, token);
            !end.report.cancelled ==> Quiet(end.arena, engine.MaxRounds())
  {
    FreshRunTracks(engine, source, a, rev);
    RunReports(engine, source, a, rev, Progress(a, EMPTY_REPORT, []), exec, token, 0, false);
    NoneOpenIsNothingPending(Run(engine, source, a, exec, token).arena, engine.MaxRounds());
  }

  /** A complete executor and an untouched token never cut a run short. */
  lemma {:induction false} CompleteIsNotCancelled<C(!new)>(
      engine: Engine<C>, source: Text, p: Progress<C>, exec: Executor<C>, token: Polls, round: nat)
    requires Complete(exec) && (forall r: nat :: !token(r)) && !p.report.cancelled
    ensures !RunFrom(engine, source, p, exec, token, round).report.cancelled
    decreases engine.MaxRounds() - round
  {
    RunUnfolds(engine, source, p, exec, token, round);
    hide RunFrom;
    if Goes(engine, p, token, round) {
      BatchKeepsFlags(engine, p, exec(ReadyJobs(p.arena, round), Runner(engine, source)), round);
      assert |exec(ReadyJobs(p.arena, round), Runner(engine, source))| == |ReadyJobs(p.arena, round)|;
      CompleteIsNotCancelled(engine, source, Next(engine, source, p, exec, round), exec, token, round + 1);
    }
  }

  // ----- which trees are a front -----

  /** Each child's home round is the one after its parent's. */
  ghost predicate HomesStep<C>(a: Arena<C>) {
    forall p: nat, c: nat {:trigger c in a[p].children} ::
      p < |a| && c < |a| && c in a[p].children ==> Home(a[c]) == Home(a[p]) + 1
  }

  ghost predicate ParentUnparsed<C>(a: Arena<C>, i: nat) {
    0 < i < |a| && a[i].parent.Some? && a[i].parent.value < i && a[a[i].parent.value].status == Unparsed
  }

  /** Open nodes are unparsed, and so are their parents. */
  ghost predicate Reset<C>(a: Arena<C>, cap: nat, all: bool) {
    forall i: nat {:trigger Open(a[i], cap, all)} ::
      i < |a| && Open(a[i], cap, all) ==> a[i].status == Unparsed && (i == 0 || ParentUnparsed(a, i))
  }

  lemma ResetIsFront<C>(a: Arena<C>, rev: nat, cap: nat, all: bool)
    requires Consistent(a, rev) && HomesStep(a) && Reset(a, cap, all)
    ensures Front(a, cap, all, 0)
  {
    forall i: nat | i < |a| && Open(a[i], cap, all) ensures a[i].depth == 0 || Behind(a, i) {
      if i > 0 {
        assert Listed(a, i);
      }
    }
  }

  lemma NoneOpenIsReset<C>(a: Arena<C>, cap: nat, all: bool)
    requires NoneOpen(a, cap, all)
    ensures Reset(a, cap, all)
  {
  }

  /** An edit resets a node only together with its parent. */
  lemma EditKeepsReset<C>(a: Arena<C>, e: Edit, rev: nat, rev': nat, cap: nat, all: bool)
    requires Consistent(a, rev) && Reset(a, cap, all)
    ensures Restartable(a)
    ensures Reset(EditAll(a, e, rev'), cap, all)
  {
    ConsistentIsRestartable(a, rev);
    var b := EditAll(a, e, rev');
    forall i: nat | i < |b| && Open(b[i], cap, all)
      ensures b[i].status == Unparsed && (i == 0 || ParentUnparsed(b, i))
    {
      if i > 0 {
        assert Listed(a, i);
        NestingIsKept(e, a[a[i].parent.value].span, a[i].span, rev');
      }
      assert e.Touches(a[i].span) || Open(a[i], cap, all);
    }
  }

  /** A settled tree is a front again after an edit. */
  lemma EditedSettledTreeIsFront<C>(a: Arena<C>, e: Edit, rev: nat, rev': nat, cap: nat, all: bool)
    requires Consistent(a, rev) && HomesStep(a) && NoneOpen(a, cap, all)
    ensures Restartable(a)
    ensures Front(EditAll(a, e, rev'), cap, all, 0)
  {
    NoneOpenIsReset(a, cap, all);
    EditKeepsReset(a, e, rev, rev', cap, all);
    EditKeepsConsistent(a, e, rev, rev');
    EditKeepsHomesStep(a, e, rev, rev');
    ResetIsFront(EditAll(a, e, rev'), rev', cap, all);
  }

  lemma EditKeepsHomesStep<C>(a: Arena<C>, e: Edit, rev: nat, rev': nat)
    requires Consistent(a, rev) && HomesStep(a)
    ensures Restartable(a)
    ensures HomesStep(EditAll(a, e, rev'))
  {
    ConsistentIsRestartable(a, rev);
    var b := EditAll(a, e, rev');
    forall p: nat, c: nat | p < |b| && c < |b| && c in b[p].children ensures Home(b[c]) == Home(b[p]) + 1 {
      assert c in a[p].children;
    }
  }

  /** Under a levelled schedule home rounds keep stepping by one. */
  lemma MergeKeepsHomesStep<C(!new)>(engine: Engine<C>, source: Text, a: Arena<C>, id: nat, level: C -> nat)
    requires Levelled(engine, level) && Shape(a) && id < |a| && a[id].Ready()
    requires AtLevel(a, level) && HomesStep(a)
    ensures HomesStep(MergeNext(engine, source, a, id))
  {
    var v := NextVerdict(engine, source, a[id]);
    MergeEffect(a, id, v);
    if v.Split? {
      MergeGivesTheKids(a, id, v);
    }
    hide Merge;
    var b := MergeNext(engine, source, a, id);
    forall p: nat, c: nat | p < |b| && c < |b| && c in b[p].children ensures Home(b[c]) == Home(b[p]) + 1 {
      MergedChild(a, b, id, v, p, c);
      if p == id {
        SplitChildLevel(engine, source, a, b, id, v, level, c);
      } else {
        assert c in a[p].children;
        assert Home(b[c]) == Home(a[c]);
      }
    }
  }

  lemma SplitChildLevel<C(!new)>(
      engine: Engine<C>, source: Text, a: Arena<C>, b: Arena<C>, id: nat, v: Verdict<C>, level: C -> nat, c: nat)
    requires Levelled(engine, level) && AtLevel(a, level) && Merged(a, b, id, v)
    requires v == NextVerdict(engine, source, a[id]) && v.Split? && GivesTheKids(a, b, id, v.kids)
    requires c in b[id].children
    ensures c < |b| && Home(b[c]) == Home(b[id]) + 1
  {
    var k :| 0 <= k < |b[id].children| && b[id].children[k] == c;
    assert level(a[id].ctx) == a[id].depth && level(v.kids[k].1) == a[id].depth + 1;
    assert Keys(b, b[id].children)[k] == v.kids[k];
    assert b[c].ctx == v.kids[k].1;
    assert c < |a| ==> Home(a[c]) == level(a[c].ctx);
    assert Home(a[id]) == level(a[id].ctx);
  }

  lemma {:induction false} ReplayKeepsHomesStep<C(!new)>(
      engine: Engine<C>, source: Text, a: Arena<C>, rev: nat, log: seq<nat>, level: C -> nat)
    requires Levelled(engine, level) && Consistent(a, rev) && Legit(engine, source, a, log)
    requires AtLevel(a, level) && HomesStep(a)
    ensures HomesStep(Replay(engine, source, a, log))
  {
    hide Levelled, AtLevel, HomesStep;
    if log != [] {
      var n := |log| - 1;
      ReplayKeepsHomesStep(engine, source, a, rev, log[..n], level);
      ReplayKeepsConsistent(engine, source, a, rev, log[..n]);
      ReplayKeepsLevels(engine, source, a, rev, log[..n], level);
      MergeKeepsHomesStep(engine, source, Replay(engine, source, a, log[..n]), log[n], level);
    }
  }

  // ----- calling run again -----

  /** Round 0 has a job exactly when the root is unparsed: every other node waits for a later round. */
  lemma RoundZeroIsTheRoot<C>(a: Arena<C>, rev: nat)
    requires Consistent(a, rev)
    ensures ReadyJobs(a, 0) != [] <==> a[0].status == Unparsed
  {
    assert Home(a[0]) == 0;
    ReadyJobsAreABatch(a, 0, |a|);
    if a[0].status == Unparsed {
      var k := ReadyJobsMissNone(a, 0, |a|, 0);
    }
    if ReadyJobs(a, 0) != [] {
      var i := ReadyJobs(a, 0)[0].node;
      if i > 0 {
        assert Listed(a, i);
      }
    }
  }

  lemma {:induction false} ProcessedGrows<C>(
      engine: Engine<C>, source: Text, p: Progress<C>, exec: Executor<C>, token: Polls, round: nat)
    ensures RunFrom(engine, source, p, exec, token, round).report.nodesProcessed >= p.report.nodesProcessed
    decreases engine.MaxRounds() - round
  {
    RunUnfolds(engine, source, p, exec, token, round);
    hide RunFrom;
    if Goes(engine, p, token, round) {
      BatchKeepsFlags(engine, p, exec(ReadyJobs(p.arena, round), Runner(engine, source)), round);
      ProcessedGrows(engine, source, Next(engine, source, p, exec, round), exec, token, round + 1);
    }
  }

  /** With a root that is not unparsed a call finds round 0 empty: it changes nothing and reports a fixpoint. */
  lemma ParsedRootStopsTheRun<C(!new)>(
      engine: Engine<C>, source: Text, a: Arena<C>, rev: nat, exec: Executor<C>, token: Polls)
    requires Consistent(a, rev) && engine.MaxRounds() > 0 && !token(0) && a[0].status != Unparsed
    ensures Run(engine, source, a, exec, token) == Progress(a, EMPTY_REPORT.(reachedFixpoint := true), [])
  {
    RoundZeroIsTheRoot(a, rev);
    RunUnfolds(engine, source, Progress(a, EMPTY_REPORT, []), exec, token, 0);
    hide RunFrom, Consistent, ReadyJobs;
  }

  /** A call of `run` that is not cancelled takes up work exactly when the root is unparsed. */
  lemma RunTakesUpWorkIffRootUnparsed<C(!new)>(
      engine: Engine<C>, source: Text, a: Arena<C>, rev: nat, exec: Executor<C>, token: Polls)
    requires Consistent(a, rev) && Complete(exec) && engine.MaxRounds() > 0 && !token(0)
    ensures Run(engine, source, a, exec, token).report.nodesProcessed > 0 <==> a[0].status == Unparsed
    ensures a[0].status != Unparsed ==>
              Run(engine, source, a, exec, token) == Progress(a, EMPTY_REPORT.(reachedFixpoint := true), [])
  {
    RoundZeroIsTheRoot(a, rev);
    var p := Progress(a, EMPTY_REPORT, []);
    RunUnfolds(engine, source, p, exec, token, 0);
    hide RunFrom, Consistent, ReadyJobs;
    if a[0].status != Unparsed {
      ParsedRootStopsTheRun(engine, source, a, rev, exec, token);
    } else {
      assert |exec(ReadyJobs(a, 0), Runner(engine, source))| == |ReadyJobs(a, 0)|;
      BatchKeepsFlags(engine, p, exec(ReadyJobs(a, 0), Runner(engine, source)), 0);
      ProcessedGrows(engine, source, Next(engine, source, p, exec, 0), exec, token, 1);
    }
  }

  lemma {:induction false} BatchKeepsLog<C>(engine: Engine<C>, p: Progress<C>, executed: Executed<C>, round: nat)
    ensures p.log <= MergeBatch(engine, p, executed, round).log
  {
    if executed != [] {
      BatchKeepsLog(engine, p, executed[..|executed| - 1], round);
    }
  }

  /** A run only adds to its log. */
  lemma {:induction false} RunKeepsLog<C>(
      engine: Engine<C>, source: Text, p: Progress<C>, exec: Executor<C>, token: Polls, round: nat)
    ensures p.log <= RunFrom(engine, source, p, exec, token, round).log
    decreases engine.MaxRounds() - round
  {
    RunUnfolds(engine, source, p, exec, token, round);
    hide RunFrom;
    if Goes(engine, p, token, round) {
      BatchKeepsLog(engine, p, exec(ReadyJobs(p.arena, round), Runner(engine, source)), round);
      RunKeepsLog(engine, source, Next(engine, source, p, exec, round), exec, token, round + 1);
    }
  }

  ghost predicate RootUnparsed<C>(a: Arena<C>) {
    |a| > 0 && a[0].status == Unparsed
  }

  /** Only an attempt on the root itself changes whether it is unparsed. */
  lemma {:induction false} RootStaysUnparsedIff<C>(engine: Engine<C>, source: Text, a: Arena<C>, rev: nat, log: seq<nat>)
    requires Consistent(a, rev) && Legit(engine, source, a, log)
    ensures RootUnparsed(Replay(engine, source, a, log)) <==> RootUnparsed(a) && 0 !in log
  {
    hide Consistent, MergeNext, RootUnparsed;
    if log != [] {
      var n := |log| - 1;
      RootStaysUnparsedIff(engine, source, a, rev, log[..n]);
      ReplayKeepsConsistent(engine, source, a, rev, log[..n]);
      RootChangesByItsOwnMerge(engine, source, Replay(engine, source, a, log[..n]), rev, log[n]);
      assert 0 in log <==> 0 in log[..n] || log[n] == 0 by {
        assert log == log[..n] + [log[n]];
      }
    }
  }

  lemma RootChangesByItsOwnMerge<C>(engine: Engine<C>, source: Text, a: Arena<C>, rev: nat, id: nat)
    requires Consistent(a, rev) && id < |a| && a[id].alive
    ensures RootUnparsed(MergeNext(engine, source, a, id)) <==> RootUnparsed(a) && id != 0
  {
    MergeEffect(a, id, NextVerdict(engine, source, a[id]));
    hide Merge;
    UnderIsUpward(a, id, 0);
  }

  /** The first attempt of a run is on the root. */
  lemma FirstJobIsTheRoot<C(!new)>(engine: Engine<C>, source: Text, a: Arena<C>, rev: nat, exec: Executor<C>, token: Polls)
    requires Contract(exec) && Consistent(a, rev)
    ensures var log := Run(engine, source, a, exec, token).log; log != [] ==> log[0].node == 0
  {
    var p := Progress(a, EMPTY_REPORT, []);
    RunUnfolds(engine, source, p, exec, token, 0);
    FreshRunTracks(engine, source, a, rev);
    hide RunFrom, Tracks, MergeBatch;
    if Goes(engine, p, token, 0) {
      var jobs, run := ReadyJobs(a, 0), Runner(engine, source);
      var n := |exec(jobs, run)|;
      assert n <= |jobs| && exec(jobs, run) == Outcomes(jobs, run, n);
      ReadyJobsAreABatch(a, 0, |a|);
      RootIsTheOnlyJob(a, rev, jobs);
      BatchIsReplay(engine, source, a, rev, p, jobs, 0, n);
      assert Next(engine, source, p, exec, 0).log == jobs[..n];
      RunKeepsLog(engine, source, Next(engine, source, p, exec, 0), exec, token, 1);
    }
  }

  lemma RootIsTheOnlyJob<C>(a: Arena<C>, rev: nat, jobs: seq<Job<C>>)
    requires Consistent(a, rev) && IsBatch(a, jobs, 0)
    ensures forall k | 0 <= k < |jobs| :: jobs[k].node == 0
  {
    forall k | 0 <= k < |jobs| ensures jobs[k].node == 0 {
      assert jobs[k].node == 0 || Listed(a, jobs[k].node);
    }
  }

  /** A run leaves the root unparsed exactly when it found it so and did nothing at all. */
  lemma RunLeavesRootUnparsedIff<C(!new)>(
      engine: Engine<C>, source: Text, a: Arena<C>, rev: nat, exec: Executor<C>, token: Polls)
    requires Contract(exec) && Consistent(a, rev)
    ensures var end := Run(engine, source, a, exec, token);
            && Consistent(end.arena, rev)
            && (end.arena[0].status == Unparsed <==> a[0].status == Unparsed && end.report.nodesProcessed == 0)
  {
    WholeRunTracks(engine, source, a, rev, exec, token);
    FirstJobIsTheRoot(engine, source, a, rev, exec, token);
    hide Consistent, Legit, Replay, RunFrom;
    var log := Run(engine, source, a, exec, token).log;
    RootStaysUnparsedIff(engine, source, a, rev, NodesOf(log));
    if log != [] {
      assert NodesOf(log)[0] == 0;
      ProcessedMeansRootWasUnparsed(engine, source, a, rev, exec, token);
    }
  }

  lemma ProcessedMeansRootWasUnparsed<C(!new)>(
      engine: Engine<C>, source: Text, a: Arena<C>, rev: nat, exec: Executor<C>, token: Polls)
    requires Consistent(a, rev) && Run(engine, source, a, exec, token).log != []
    ensures a[0].status == Unparsed
  {
    RunUnfolds(engine, source, Progress(a, EMPTY_REPORT, []), exec, token, 0);
    RoundZeroIsTheRoot(a, rev);
    hide RunFrom, ReadyJobs, Consistent;
  }

  /**
    * Calling `run` twice on a tree whose root is unparsed: the second call, with whatever engine,
    * takes up work exactly when the first one did none.  If the first one was cancelled after it had
    * merged an outcome, nothing is resumed: the second call returns the same tree and reports a fixpoint.
    */
  lemma NextCallResumesIff<C(!new)>(
      engine: Engine<C>, source: Text, a: Arena<C>, rev: nat, exec: Executor<C>, token: Polls,
      engine': Engine<C>, exec': Executor<C>, token': Polls)
    requires Consistent(a, rev) && a[0].status == Unparsed && Contract(exec)
    requires Complete(exec') && engine'.MaxRounds() > 0 && !token'(0)
    ensures var first := Run(engine, source, a, exec, token);
            var second := Run(engine', source, first.arena, exec', token');
            && (second.report.nodesProcessed > 0 <==> first.report.nodesProcessed == 0)
            && (first.report.nodesProcessed > 0 ==>
                  second == Progress(first.arena, EMPTY_REPORT.(reachedFixpoint := true), []))
  {
    hide Consistent, RunFrom;
    RunLeavesRootUnparsedIff(engine, source, a, rev, exec, token);
    RunTakesUpWorkIffRootUnparsed(engine', source, Run(engine, source, a, exec, token).arena, rev, exec', token');
  }

  /** When the root is not unparsed, the flag of such a call is truthful exactly on a front. */
  lemma FlagIsTruthfulIffFront<C(!new)>(
      engine: Engine<C>, source: Text, a: Arena<C>, rev: nat, exec: Executor<C>, token: Polls)
    requires Consistent(a, rev) && Complete(exec) && engine.MaxRounds() > 0 && !token(0)
    requires a[0].status != Unparsed
    ensures var end := Run(engine, source, a, exec, token);
            && end.report.reachedFixpoint
            && (Pending(end.arena, engine.MaxRounds()) == [] <==> Front(a, engine.MaxRounds(), true, 0))
  {
    RunTakesUpWorkIffRootUnparsed(engine, source, a, rev, exec, token);
    RoundZeroIsTheRoot(a, rev);
    NoneOpenIsNothingPending(a, engine.MaxRounds());
    if Front(a, engine.MaxRounds(), true, 0) {
      forall i: nat | i < |a| ensures !Open(a[i], engine.MaxRounds(), true) {
        EmptyRoundIsQuiet(a, engine.MaxRounds(), true, 0, i);
      }
    }
  }
}
