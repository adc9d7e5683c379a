/**
  * Two concrete documents.  One shows what an edit can break when a schedule is not levelled: a false
  * fixpoint flag, and a tree that differs from a fresh parse.  The other shows a cancelled run that the
  * next call does not resume.
  */
module Witness {
  import opened Spans
  import opened Arenas
  import opened Invariants
  import opened Edits
  import opened Engines
  import opened Executors
  import opened Freshness
  import opened Runs
  import opened Batches
  import opened Soundness
  import opened Reference
  import opened Histories
  import Frontier

  const EMPTY_KID: nat := 7

  /** The empty region at the end of the span. */
  function Tail(span: Span): Outcome<nat> {
    Expand([(Range(span.end, span.end, span.rev), EMPTY_KID)])
  }

  /** Splits off the empty tail of a region that starts with byte 1, and fails on every other. */
  function SplitsOnes(source: Text, span: Span, ctx: nat): Outcome<nat> {
    if span.end <= |source| && span.Len() > 0 && source[span.start] == 1 then Tail(span) else Fail
  }

  /** Splits off the empty tail of any region. */
  function SplitsAll(source: Text, span: Span, ctx: nat): Outcome<nat> {
    Tail(span)
  }

  /** Two passes; the second expands contexts the first may already have expanded. */
  function TwoPasses(): Engine<nat> {
    Engine([SplitsOnes, SplitsAll], false, None)
  }

  lemma TwoPassesAreLocal()
    ensures AllLocal(TwoPasses())
  {
    forall source: Text, span: Span, source': Text, span': Span, ctx: nat |
      span.end <= |source| && span'.end <= |source'| && Slice(source, span) == Slice(source', span')
      ensures Shifted(SplitsAll(source, span, ctx), span, SplitsAll(source', span', ctx), span')
      ensures Shifted(SplitsOnes(source, span, ctx), span, SplitsOnes(source', span', ctx), span')
    {
      assert |Slice(source, span)| == span.Len() && |Slice(source', span')| == span'.Len();
      if span.Len() > 0 {
        assert Slice(source, span)[0] == source[span.start] && Slice(source', span')[0] == source'[span'.start];
      }
    }
    assert SliceLocal(SplitsOnes);
    assert SliceLocal(SplitsAll);
  }

  // ----- the states of the document -----

  function Root(status: Status, depth: nat, attempts: nat, children: seq<nat>, rev: nat): Node<nat> {
    Node(Range(0, 1, rev), 0, status, depth, None, children, attempts, true)
  }

  function Child(depth: nat, rev: nat): Node<nat> {
    Node(Range(1, 1, rev), EMPTY_KID, Unparsed, depth, Some(0), [], 0, true)
  }

  /** The text is byte 0: pass 0 fails on it, pass 1 expands it, and the schedule is over. */
  function Parsed(): Snapshot<nat> {
    Snapshot([Root(Expanded, 1, 1, [1], 0), Child(2, 0)], 0, [0])
  }

  /** Byte 0 has become byte 1: the root starts over at round 0, the empty child is untouched. */
  function Changed(): Snapshot<nat> {
    Snapshot([Root(Unparsed, 0, 0, [1], 1), Child(2, 1)], 1, [1])
  }

  /** Now pass 0 expands the root, and reuses the child that round 1 had created. */
  function Reparsed(): Snapshot<nat> {
    Snapshot([Root(Expanded, 0, 0, [1], 1), Child(2, 1)], 1, [1])
  }

  // ----- the steps between them -----

  lemma FailStep()
    ensures var a := Opened<nat>([0], 0, 0).arena; MergeNext(TwoPasses(), [0], a, 0) == [Root(Failed, 1, 1, [], 0)]
  {
    var a := Opened<nat>([0], 0, 0).arena;
    assert NextVerdict(TwoPasses(), [0], a[0]) == Failing(GaveUp);
  }

  lemma NothingToReuse(root: Node<nat>)
    ensures var kids: seq<Kid<nat>> := [(Range(1, 1, 0), EMPTY_KID)];
            && Match([root], [], kids) == Matching([None], [])
            && Place(1, 0, kids, [None], root.depth + 1) == Placing([1], [Child(root.depth + 1, 0)])
  {
    var kids: seq<Kid<nat>> := [(Range(1, 1, 0), EMPTY_KID)];
    var unclaimed: seq<Option<nat>> := [None];
    assert kids[..0] == [] && unclaimed[..0] == [];
  }

  /** Splitting off the tail of a lone root leaves the root and one new child. */
  lemma LoneRootSplits(source: Text, root: Node<nat>)
    requires root.alive && root.children == []
    requires NextVerdict(TwoPasses(), source, root) == Split([(Range(1, 1, 0), EMPTY_KID)])
    ensures MergeNext(TwoPasses(), source, [root], 0) == [root.(status := Expanded, children := [1]), Child(root.depth + 1, 0)]
  {
    NothingToReuse(root);
    hide Match, Place, NextVerdict, Surgery, UnderAny, SplitsOnes, SplitsAll, TwoPasses;
    var b := MergeNext(TwoPasses(), source, [root], 0);
    assert |b| == 2 && b[1] == Child(root.depth + 1, 0);
  }

  lemma SplitStep()
    ensures MergeNext(TwoPasses(), [0], [Root(Failed, 1, 1, [], 0)], 0) == Parsed().arena
  {
    assert NextVerdict(TwoPasses(), [0], Root(Failed, 1, 1, [], 0)) == Split([(Range(1, 1, 0), EMPTY_KID)]);
    hide NextVerdict, MergeNext;
    LoneRootSplits([0], Root(Failed, 1, 1, [], 0));
  }

  lemma EditStep()
    ensures Splices<Byte>(Change(0, 1, 1), [0], [1])
    ensures Restartable(Parsed().arena) && EditAll(Parsed().arena, Change(0, 1, 1), 1) == Changed().arena
  {
    var b := EditAll(Parsed().arena, Change(0, 1, 1), 1);
    assert |b| == 2 && b[0] == Changed().arena[0] && b[1] == Changed().arena[1];
  }

  lemma ReuseMatch()
    ensures var kids: seq<Kid<nat>> := [(Range(1, 1, 1), EMPTY_KID)];
            && Match(Changed().arena, [1], kids) == Matching([Some(1)], [])
            && Place(2, 0, kids, [Some(1)], 1) == Placing([1], [])
  {
    var a := Changed().arena;
    var kids: seq<Kid<nat>> := [(Range(1, 1, 1), EMPTY_KID)];
    assert kids[..0] == [];
    assert Position(a, [1], kids[0]) == 0;
    assert Without([1], 0) == [];
    var claimed: seq<Option<nat>> := [Some(1)];
    assert claimed[..0] == [];
  }

  lemma ReuseStep()
    ensures MergeNext(TwoPasses(), [1], Changed().arena, 0) == Reparsed().arena
  {
    var a := Changed().arena;
    ReuseMatch();
    hide Match, Place, UnderAny;
    var kids: seq<Kid<nat>> := [(Range(1, 1, 1), EMPTY_KID)];
    assert NextVerdict(TwoPasses(), [1], a[0]) == Split(kids);
    var b := MergeNext(TwoPasses(), [1], a, 0);
    assert |b| == 2 && b[0] == Reparsed().arena[0];
    assert b[1] == Child(2, 1) by {
      assert !UnderAny(a, [], 1) by {
        NothingUnderNothing(a, 1);
      }
    }
  }

  lemma NothingUnderNothing<C>(a: Arena<C>, j: nat)
    ensures !UnderAny(a, [], j)
  {
  }

  // ----- the runs -----

  /** A round whose only job is the root, with an executor that is never cut short. */
  lemma RootOnlyRound(source: Text, p: Progress<nat>, token: Polls, round: nat)
    requires round < 2 && !token(round) && |p.arena| > 0 && InRange(p.arena, p.arena[0].children)
    requires ReadyJobs(p.arena, round) == [Job(0, p.arena[0].span, p.arena[0].ctx, round)] && p.arena[0].depth == round
    ensures var q := Next(TwoPasses(), source, p, FullExecutor<nat>(), round);
            && q.arena == MergeNext(TwoPasses(), source, p.arena, 0)
            && q.report.reachedFixpoint == p.report.reachedFixpoint
            && RunFrom(TwoPasses(), source, p, FullExecutor<nat>(), token, round) ==
               RunFrom(TwoPasses(), source, q, FullExecutor<nat>(), token, round + 1)
  {
    var jobs := ReadyJobs(p.arena, round);
    var run := Runner(TwoPasses(), source);
    RunUnfolds(TwoPasses(), source, p, FullExecutor<nat>(), token, round);
    hide RunFrom, ReadyJobs, Merge, Judge, SplitsOnes, SplitsAll;
    assert Outcomes(jobs, run, 0) == [];
    assert MergeBatch(TwoPasses(), p, Outcomes(jobs, run, 0), round) == p;
    MergeBatchSnoc(TwoPasses(), p, jobs, run, round, 1);
    Frontier.BatchKeepsFlags(TwoPasses(), p, Outcomes(jobs, run, 1), round);
    assert FullExecutor<nat>()(jobs, run) == Outcomes(jobs, run, 1);
  }

  lemma FirstRun()
    ensures Run(TwoPasses(), [0], Opened<nat>([0], 0, 0).arena, FullExecutor<nat>(), NeverCancelled()).arena == Parsed().arena
  {
    var a0, a1, a2 := Opened<nat>([0], 0, 0).arena, [Root(Failed, 1, 1, [], 0)], Parsed().arena;
    assert ReadyJobs(a0, 0, 0) == [] && ReadyJobs(a0, 0, 1) == [Job(0, a0[0].span, a0[0].ctx, 0)];
    assert ReadyJobs(a1, 1, 0) == [] && ReadyJobs(a1, 1, 1) == [Job(0, a1[0].span, a1[0].ctx, 1)];
    FailStep();
    SplitStep();
    hide ReadyJobs, MergeNext, Opened, Parsed;
    var p0 := Progress(a0, EMPTY_REPORT, []);
    RootOnlyRound([0], p0, NeverCancelled(), 0);
    var p1 := Next(TwoPasses(), [0], p0, FullExecutor<nat>(), 0);
    RootOnlyRound([0], p1, NeverCancelled(), 1);
    var p2 := Next(TwoPasses(), [0], p1, FullExecutor<nat>(), 1);
    RunUnfolds(TwoPasses(), [0], p2, FullExecutor<nat>(), NeverCancelled(), 2);
  }

  lemma SecondRunJobs()
    ensures ReadyJobs(Changed().arena, 0) == [Job(0, Changed().arena[0].span, Changed().arena[0].ctx, 0)]
    ensures ReadyJobs(Reparsed().arena, 1) == []
    ensures Changed().arena[0].depth == 0 && InRange(Changed().arena, Changed().arena[0].children)
  {
    var a0, a1 := Changed().arena, Reparsed().arena;
    assert ReadyJobs(a0, 0, 0) == [] && ReadyJobs(a0, 0, 1) == [Job(0, a0[0].span, a0[0].ctx, 0)];
    assert ReadyJobs(a0, 0, 2) == ReadyJobs(a0, 0, 1);
    assert ReadyJobs(a1, 1, 0) == [] && ReadyJobs(a1, 1, 1) == [] && ReadyJobs(a1, 1, 2) == [];
  }

  lemma SecondRun()
    ensures var end := Run(TwoPasses(), [1], Changed().arena, FullExecutor<nat>(), NeverCancelled());
            end.arena == Reparsed().arena && end.report.reachedFixpoint
  {
    SecondRunJobs();
    ReuseStep();
    hide ReadyJobs, MergeNext, Reparsed, Root, Child;
    var p0 := Progress(Changed().arena, EMPTY_REPORT, []);
    RootOnlyRound([1], p0, NeverCancelled(), 0);
    var p1 := Next(TwoPasses(), [1], p0, FullExecutor<nat>(), 0);
    RunUnfolds(TwoPasses(), [1], p1, FullExecutor<nat>(), NeverCancelled(), 1);
  }

  function History(): seq<Event<nat>> {
    var run := Ran(TwoPasses(), FullExecutor<nat>(), NeverCancelled());
    [run, Edited(Change(0, 1, 1), [1]), run]
  }

  function States(): seq<Snapshot<nat>> {
    [Opened([0], 0, 0), Parsed(), Changed(), Reparsed()]
  }

  lemma ThisHappens()
    ensures Behaves(States(), History(), 0) && DrivenBy(TwoPasses(), History(), 3)
    ensures forall k | 0 <= k < |History()| :: Uncut(History()[k])
  {
    FirstRun();
    EditStep();
    SecondRun();
    SourcesOfTheStates();
    FullExecutorIsComplete<nat>();
    hide RunFrom, EditAll, Parsed, Changed, Reparsed, Restartable, Splices, Contract;
    var s, h := States(), History();
    assert s[0].source == [0] && s[0].rev == 0 && s[0] == Opened<nat>([0], 0, 0);
    assert Run(TwoPasses(), s[0].source, s[0].arena, FullExecutor<nat>(), NeverCancelled()).arena == s[1].arena;
    assert Leads(s[0], h[0], s[1]) by {
      assert Contract(FullExecutor<nat>());
    }
    assert Leads(s[1], h[1], s[2]);
    assert Leads(s[2], h[2], s[3]) by {
      assert Contract(FullExecutor<nat>());
    }
  }

  lemma SourcesOfTheStates()
    ensures Parsed().source == [0] && Changed().source == [1] && Reparsed().source == [1]
    ensures Parsed().rev == 0 && Changed().rev == 1 && Reparsed().rev == 1
  {
  }

  /**
    * With slice-local passes, no cancellation and one edit: the last run reports a fixpoint although
    * a node is still pending, and although no pass below the cap has work left the tree is not what
    * parsing the text from nothing gives.
    */
  lemma UnlevelledScheduleBreaksAgreement()
    ensures AllLocal(TwoPasses()) && Behaves(States(), History(), 0) && DrivenBy(TwoPasses(), History(), 3)
    ensures forall k | 0 <= k < |History()| :: Uncut(History()[k])
    ensures Run(TwoPasses(), [1], Changed().arena, FullExecutor<nat>(), NeverCancelled()).report.reachedFixpoint
    ensures Pending(Reparsed().arena, 2) != [] && Quiet(Reparsed().arena, 2)
    ensures ChildrenPointBack(Reparsed().arena)
    ensures Abstract(Reparsed().arena, 0) != Scratch(TwoPasses(), [1], Range(0, 1, 1), 0)
  {
    TwoPassesAreLocal();
    ThisHappens();
    SecondRun();
    LastTree();
    hide RunFrom, Scratch, Abstract, Behaves, AllLocal, Pending, Quiet, Aligned, Uncut, ChildrenPointBack, Changed, Reparsed;
    SourcesOfTheStates();
    IncrementalIsScratchIffAligned(TwoPasses(), States(), History(), 0, 3);
  }

  lemma LastTree()
    ensures Pending(Reparsed().arena, 2) != [] && Quiet(Reparsed().arena, 2) && !Aligned(Reparsed().arena)
  {
    var a := Reparsed().arena;
    assert IsPending(a[1], 2);
    PendingMembers(a, 2, 2);
    assert 1 in Pending(a, 2);
    assert 1 in a[0].children && a[0].status == Expanded && Home(a[1]) == 2;
  }

  // ----- a cancelled run is not resumed -----

  /** The token fires before round 1. */
  function CancelledAfterOneRound(): Polls {
    (k: nat) => k >= 1
  }

  /** The text is byte 1: round 0 has expanded the root, and its child waits for round 1. */
  function Halfway(): Arena<nat> {
    [Root(Expanded, 0, 0, [1], 0), Child(1, 0)]
  }

  lemma OnesSplitStep()
    ensures MergeNext(TwoPasses(), [1], Opened<nat>([1], 0, 0).arena, 0) == Halfway()
  {
    assert NextVerdict(TwoPasses(), [1], Root(Unparsed, 0, 0, [], 0)) == Split([(Range(1, 1, 0), EMPTY_KID)]);
    hide NextVerdict, MergeNext;
    LoneRootSplits([1], Root(Unparsed, 0, 0, [], 0));
  }

  lemma CancelledRun()
    ensures var end := Run(TwoPasses(), [1], Opened<nat>([1], 0, 0).arena, FullExecutor<nat>(), CancelledAfterOneRound());
            end.arena == Halfway() && end.report.cancelled
  {
    var a := Opened<nat>([1], 0, 0).arena;
    assert ReadyJobs(a, 0, 0) == [] && ReadyJobs(a, 0, 1) == [Job(0, a[0].span, a[0].ctx, 0)];
    OnesSplitStep();
    hide ReadyJobs, MergeNext, Opened, Halfway;
    var p := Progress(a, EMPTY_REPORT, []);
    RootOnlyRound([1], p, CancelledAfterOneRound(), 0);
    var q := Next(TwoPasses(), [1], p, FullExecutor<nat>(), 0);
    RunUnfolds(TwoPasses(), [1], q, FullExecutor<nat>(), CancelledAfterOneRound(), 1);
  }

  /**
    * A run cancelled between two rounds leaves a pending node; the next call, cancelled by nobody,
    * does not process it, returns the same tree and reports a fixpoint.
    */
  lemma CancelledRunIsNotResumed()
    ensures var first := Run(TwoPasses(), [1], Opened<nat>([1], 0, 0).arena, FullExecutor<nat>(), CancelledAfterOneRound());
            var second := Run(TwoPasses(), [1], first.arena, FullExecutor<nat>(), NeverCancelled());
            && first.report.cancelled && Pending(first.arena, 2) != []
            && second.arena == first.arena && second.report.nodesProcessed == 0
            && second.report.reachedFixpoint && !second.report.cancelled
  {
    CancelledRun();
    OpenedIsConsistent<nat>([1], 0, 0);
    FullExecutorIsComplete<nat>();
    assert IsPending(Halfway()[1], 2);
    PendingMembers(Halfway(), 2, 2);
    assert 1 in Pending(Halfway(), 2);
    assert Halfway()[0].status == Expanded;
    var a := Opened<nat>([1], 0, 0).arena;
    hide RunFrom, Consistent, Opened, Halfway, Pending, SplitsOnes, SplitsAll;
    Frontier.RunLeavesRootUnparsedIff(TwoPasses(), [1], a, 0, FullExecutor<nat>(), CancelledAfterOneRound());
    Frontier.ParsedRootStopsTheRun(TwoPasses(), [1], Halfway(), 0, FullExecutor<nat>(), NeverCancelled());
  }
}
