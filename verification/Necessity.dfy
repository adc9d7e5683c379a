/** No weaker hypothesis on the tree than a frontier makes the fixpoint flag truthful for all passes. */
module Necessity {
  import opened Spans
  import opened Arenas
  import opened Invariants
  import opened Engines
  import opened Executors
  import opened Freshness
  import opened Runs
  import opened Batches
  import opened Soundness
  import opened Detaching
  import opened Frontier
  import opened Reuse

  /** A reported fixpoint leaves nothing pending. */
  ghost predicate Truthful<C>(engine: Engine<C>, source: Text, a: Arena<C>, exec: Executor<C>, token: Polls) {
    var end := Run(engine, source, a, exec, token);
    end.report.reachedFixpoint ==> Pending(end.arena, engine.MaxRounds()) == []
  }

  ghost predicate TruthfulForAllPasses<C(!new)>(a: Arena<C>, cap: nat) {
    forall engine: Engine<C>, source: Text, exec: Executor<C>, token: Polls |
      engine.MaxRounds() == cap && Contract(exec) :: Truthful(engine, source, a, exec, token)
  }

  /** No two children of one node have the same span and context. */
  ghost predicate KeysDistinct<C>(a: Arena<C>) {
    forall p: nat, c: nat, d: nat {:trigger c in a[p].children, d in a[p].children} ::
      p < |a| && c < |a| && d < |a| && c in a[p].children && d in a[p].children && Key(a[c]) == Key(a[d]) ==> c == d
  }

  // ----- the way down to a node off the frontier -----

  /** A path from the root through child lists; all of it but the last node waits, node `r` for round `r`. */
  ghost predicate Trunk<C>(a: Arena<C>, path: seq<nat>) {
    && |path| > 0 && path[0] == 0
    && (forall r | 0 <= r < |path| :: path[r] < |a| && a[path[r]].alive)
    && (forall r | 0 <= r < |path| - 1 ::
          path[r + 1] in a[path[r]].children && a[path[r]].status == Unparsed && a[path[r]].depth == r)
  }

  /** The last node waits as well, for its round. */
  ghost predicate Straight<C>(a: Arena<C>, path: seq<nat>)
    requires Trunk(a, path)
  {
    var t := a[path[|path| - 1]];
    t.status == Unparsed && t.depth == |path| - 1
  }

  lemma {:induction false} FindTrunk<C>(a: Arena<C>, rev: nat, i: nat) returns (path: seq<nat>)
    requires Consistent(a, rev) && a[0].status == Unparsed && i < |a| && a[i].alive
    ensures Trunk(a, path) && Under(a, path[|path| - 1], i)
    ensures Straight(a, path) ==> path[|path| - 1] == i
    decreases i
  {
    if i == 0 {
      path := [0];
    } else {
      assert Listed(a, i);
      var p := a[i].parent.value;
      path := FindTrunk(a, rev, p);
      if Straight(a, path) {
        path := path + [i];
      }
    }
  }

  lemma StraightEndIsBehind<C>(a: Arena<C>, path: seq<nat>)
    requires ChildrenPointBack(a) && Trunk(a, path)
    ensures Straight(a, path) && |path| > 1 ==> Behind(a, path[|path| - 1])
  {
    if |path| > 1 {
      var r := |path| - 2;
      assert path[r + 1] in a[path[r]].children;
    }
  }

  /** Off the frontier the trunk ends early, at a node below which nothing waits for the trunk's last round. */
  lemma TrunkEndsEarly<C>(a: Arena<C>, rev: nat, cap: nat, i: nat) returns (path: seq<nat>)
    requires Consistent(a, rev) && Bounded(a, cap) && a[0].status == Unparsed
    requires i < |a| && IsPending(a[i], cap) && a[i].depth > 0 && !Behind(a, i)
    ensures Trunk(a, path) && 1 < |path| <= cap && Under(a, path[|path| - 1], i)
    ensures forall j: nat | j < |a| && Under(a, path[|path| - 1], j) && a[j].Ready() :: a[j].depth > |path| - 1
  {
    path := FindTrunk(a, rev, i);
    var t := path[|path| - 1];
    assert Home(a[0]) == 0;
    StraightEndIsBehind(a, path);
    assert |path| > 1;
    var r := |path| - 2;
    assert path[r + 1] in a[path[r]].children;
    assert Home(a[t]) > r;
    forall j: nat | j < |a| && Under(a, t, j) && a[j].Ready() ensures a[j].depth > |path| - 1 {
      if j != t {
        RoundsGrowDownward(a, rev, t, j);
      }
    }
    assert a[i].Ready();
  }

  // ----- passes that prune everything but the trunk -----

  function Toward<C>(a: Arena<C>, path: seq<nat>, r: nat): Outcome<C> {
    if r + 1 < |path| && path[r + 1] < |a| then Expand([Key(a[path[r + 1]])]) else Accept
  }

  /** Pass `r` asks for the next node of the trunk and for nothing else. */
  function Pruning<C>(a: Arena<C>, path: seq<nat>, cap: nat): (engine: Engine<C>)
    ensures engine.MaxRounds() == cap
  {
    Engine(seq(cap, (r: nat) => (source: Text, span: Span, ctx: C) => Toward(a, path, r)), false, Some(cap))
  }

  /** The arena before round `r`: what waits lies below node `r` of the trunk, and there nothing has changed. */
  ghost predicate Stripped<C>(a: Arena<C>, b: Arena<C>, path: seq<nat>, r: nat) {
    && r < |path| && |b| == |a|
    && (forall j | 0 <= j < |a| :: b[j].parent == a[j].parent)
    && (forall j: nat | j < |a| && b[j].Ready() :: Under(a, path[r], j))
    && (forall j: nat | j < |a| && Under(a, path[r], j) :: b[j] == a[j])
  }

  lemma OnlyKidIsClaimed<C>(a: Arena<C>, olds: seq<nat>, c: nat)
    requires Distinct(olds) && c in olds && (forall k | 0 <= k < |olds| :: olds[k] < |a| && a[olds[k]].alive)
    requires forall d | d in olds && Key(a[d]) == Key(a[c]) :: d == c
    ensures forall d | d in olds :: d in Match(a, olds, [Key(a[c])]).orphans <==> d != c
  {
    var kids := [Key(a[c])];
    assert kids[..0] == [];
    var p := Position(a, olds, kids[0]);
    var k :| 0 <= k < |olds| && olds[k] == c;
    assert p <= k;
    assert olds[p] in olds;
    WithoutRemovesOne(olds, p);
  }

  /** The merge of round `r` keeps one child of the trunk node, and nothing else below it. */
  ghost predicate OneChildLeft<C>(b: Arena<C>, d: Arena<C>, id: nat, c: nat) {
    && id < |b| == |d| && c in b[id].children && !d[id].Ready()
    && (forall j | 0 <= j < |b| :: d[j].parent == b[j].parent)
    && (forall j: nat | j < |b| && j != id && d[j].Ready() :: d[j] == b[j] && (Under(b, id, j) ==> Under(b, c, j)))
    && (forall j: nat | j < |b| && Under(b, c, j) :: d[j] == b[j])
  }

  lemma TrunkMerge<C>(b: Arena<C>, rev: nat, id: nat, c: nat)
    requires Consistent(b, rev) && id < |b| && b[id].alive && c in b[id].children && c < |b|
    requires forall d: nat | d in b[id].children && d < |b| && Key(b[d]) == Key(b[c]) :: d == c
    ensures InRange(b, b[id].children)
    ensures OneChildLeft(b, Merge(b, id, Split([Key(b[c])])), id, c)
  {
    var kids := [Key(b[c])];
    ChildrenInRange(b, id);
    OnlyKidIsClaimed(b, b[id].children, c);
    MergeEffect(b, id, Split(kids));
    ReexpansionReusesMaximally(b, id, kids);
    hide Merge, Match, Shape, UnderAny, OneChildLeft, Merged, Consistent;
    var d := Merge(b, id, Split(kids));
    OneKidOneChild(b, d, id, kids, c);
    NothingIsAdded(b, d, id, kids, c);
    OthersArePruned(b, d, id, kids, Match(b, b[id].children, kids).orphans, c);
  }

  lemma OneKidOneChild<C>(b: Arena<C>, d: Arena<C>, id: nat, kids: seq<Kid<C>>, c: nat)
    requires Merged(b, d, id, Split(kids)) && |kids| == 1 && c in d[id].children
    ensures d[id].children == [c]
  {
  }

  lemma NothingIsAdded<C>(b: Arena<C>, d: Arena<C>, id: nat, kids: seq<Kid<C>>, c: nat)
    requires Merged(b, d, id, Split(kids)) && d[id].children == [c] && c < |b|
    ensures |d| == |b|
  {
    assert |d| > |b| ==> IsNewKid(d[|b|], id, kids, b[id].depth + 1);
    assert |d| == |b| || Listed(d, |b|);
  }

  lemma OthersArePruned<C>(b: Arena<C>, d: Arena<C>, id: nat, kids: seq<Kid<C>>, orphans: seq<nat>, c: nat)
    requires Merged(b, d, id, Split(kids)) && |d| == |b| && c in b[id].children
    requires forall o | o in b[id].children :: o in orphans <==> o != c
    requires forall o | o in orphans :: o in b[id].children
    requires forall j | 0 <= j < |b| && j != id :: d[j] == if UnderAny(b, orphans, j) then Killed(b[j]) else b[j]
    ensures OneChildLeft(b, d, id, c)
  {
    ShapeIsIntact(b, id);
    forall j: nat | j < |b| && j != id && d[j].Ready() ensures d[j] == b[j] && (Under(b, id, j) ==> Under(b, c, j)) {
      if Under(b, id, j) {
        BelowAChild(b, id, j);
      }
    }
    forall j: nat | j < |b| && Under(b, c, j) ensures d[j] == b[j] {
      UnderIsUpward(b, c, j);
      forall o | o in orphans ensures !Under(b, o, j) {
        assert o in b[id].children;
        SiblingsAreApart(b, id, c, o, j);
      }
    }
  }

  lemma StripStep<C>(a: Arena<C>, b: Arena<C>, rev: nat, path: seq<nat>, r: nat)
    requires Consistent(a, rev) && Consistent(b, rev) && KeysDistinct(a) && Trunk(a, path) && r + 1 < |path|
    requires Stripped(a, b, path, r)
    ensures InRange(b, b[path[r]].children)
    ensures Stripped(a, Merge(b, path[r], Split([Key(a[path[r + 1]])])), path, r + 1)
  {
    var id, c := path[r], path[r + 1];
    assert Under(a, id, id) && c in a[id].children;
    forall d: nat | d in a[id].children ensures d < |a| && b[d] == a[d] {
      assert Under(a, id, d);
    }
    TrunkMerge(b, rev, id, c);
    hide Merge, Consistent, KeysDistinct, Trunk, OneChildLeft, Stripped;
    StripsFurther(a, b, Merge(b, id, Split([Key(a[c])])), path, r);
  }

  lemma StripsFurther<C>(a: Arena<C>, b: Arena<C>, d: Arena<C>, path: seq<nat>, r: nat)
    requires r + 1 < |path| && Stripped(a, b, path, r) && OneChildLeft(b, d, path[r], path[r + 1])
    requires Under(a, path[r], path[r + 1])
    ensures Stripped(a, d, path, r + 1)
  {
    var id, c := path[r], path[r + 1];
    forall j: nat | j < |a| ensures Under(b, id, j) == Under(a, id, j) && Under(b, c, j) == Under(a, c, j) {
      UnderFrame(a, b, id, j);
      UnderFrame(a, b, c, j);
    }
    forall j: nat | j < |a| && Under(a, c, j) ensures d[j] == a[j] {
      UnderTransitive(a, id, c, j);
    }
  }

  // ----- the run of the pruning passes -----

  lemma TrunkVerdict<C>(a: Arena<C>, rev: nat, path: seq<nat>, cap: nat, source: Text, r: nat)
    requires Consistent(a, rev) && Trunk(a, path) && r + 1 < |path| <= cap
    ensures NextVerdict(Pruning(a, path, cap), source, a[path[r]]) == Split([Key(a[path[r + 1]])])
  {
    var c := path[r + 1];
    assert c in a[path[r]].children;
    var kids := [Key(a[c])];
    assert KidFault<C>(a[path[r]].span, kids[0].0, false).None?;
    assert FirstFault(a[path[r]].span, kids, false, 0).None?;
    assert Pruning(a, path, cap).Attempt(source, r, a[path[r]].span, a[path[r]].ctx) == Toward(a, path, r);
  }

  /** Round `r` has one job, the trunk node. */
  lemma TrunkJob<C>(a: Arena<C>, b: Arena<C>, rev: nat, path: seq<nat>, r: nat)
    requires Consistent(a, rev) && Trunk(a, path) && r + 1 < |path| && Stripped(a, b, path, r)
    ensures |ReadyJobs(b, r)| == 1 && ReadyJobs(b, r)[0].node == path[r]
  {
    var jobs := ReadyJobs(b, r);
    ReadyJobsAreABatch(b, r, |b|);
    assert Under(a, path[r], path[r]);
    var k := ReadyJobsMissNone(b, r, |b|, path[r]);
    hide ReadyJobs, Consistent;
    assert |jobs| > 1 ==> jobs[0].node < jobs[1].node;
    forall m | 0 <= m < |jobs| ensures jobs[m].node == path[r] {
      if jobs[m].node != path[r] {
        RoundsGrowDownward(a, rev, path[r], jobs[m].node);
      }
    }
  }

  /** `p` is where the run of the pruning passes stands before round `r`. */
  ghost predicate OnTrunk<C>(a: Arena<C>, rev: nat, path: seq<nat>, cap: nat, source: Text, p: Progress<C>, r: nat) {
    Tracks(Pruning(a, path, cap), source, a, rev, p, r) && Stripped(a, p.arena, path, r)
  }

  lemma TrunkRound<C(!new)>(a: Arena<C>, rev: nat, path: seq<nat>, cap: nat, source: Text, p: Progress<C>, r: nat)
    requires Consistent(a, rev) && KeysDistinct(a) && Trunk(a, path) && r + 1 < |path| <= cap
    requires OnTrunk(a, rev, path, cap, source, p, r)
    ensures var engine := Pruning(a, path, cap);
            && Goes(engine, p, NeverCancelled(), r) && !CutShort(engine, source, p, FullExecutor<C>(), r)
            && OnTrunk(a, rev, path, cap, source, Next(engine, source, p, FullExecutor<C>(), r), r + 1)
  {
    var engine, exec := Pruning(a, path, cap), FullExecutor<C>();
    var jobs, run := ReadyJobs(p.arena, r), Runner(engine, source);
    TrunkJob(a, p.arena, rev, path, r);
    FullExecutorIsComplete<C>();
    hide ReadyJobs, Tracks, Consistent, KeysDistinct, MergeNext, Stripped, Contract;
    assert exec(jobs, run) == Outcomes(jobs, run, 1);
    NextTracks(engine, source, a, rev, p, exec, NeverCancelled(), r);
    BatchAdvances(engine, source, a, rev, p, r, 1);
    assert Outcomes(jobs, run, 0) == [];
    assert Next(engine, source, p, exec, r).arena == MergeNext(engine, source, p.arena, path[r]);
    TrunkMergeNext(a, p.arena, rev, path, cap, source, r);
  }

  lemma TrunkMergeNext<C>(a: Arena<C>, b: Arena<C>, rev: nat, path: seq<nat>, cap: nat, source: Text, r: nat)
    requires Consistent(a, rev) && Consistent(b, rev) && KeysDistinct(a) && Trunk(a, path) && r + 1 < |path| <= cap
    requires Stripped(a, b, path, r)
    ensures Stripped(a, MergeNext(Pruning(a, path, cap), source, b, path[r]), path, r + 1)
  {
    assert Under(a, path[r], path[r]);
    TrunkVerdict(a, rev, path, cap, source, r);
    hide NextVerdict, Consistent, KeysDistinct;
    StripStep(a, b, rev, path, r);
  }

  /** The round after the trunk is empty, and the run stops there with a node pending below it. */
  lemma {:induction false} TrunkRun<C(!new)>(
      a: Arena<C>, rev: nat, path: seq<nat>, cap: nat, source: Text, p: Progress<C>, r: nat, i: nat)
    requires Consistent(a, rev) && KeysDistinct(a) && Trunk(a, path) && r < |path| <= cap
    requires OnTrunk(a, rev, path, cap, source, p, r)
    requires i < |a| && IsPending(a[i], cap) && Under(a, path[|path| - 1], i)
    requires forall j: nat | j < |a| && Under(a, path[|path| - 1], j) && a[j].Ready() :: a[j].depth > |path| - 1
    ensures var end := RunFrom(Pruning(a, path, cap), source, p, FullExecutor<C>(), NeverCancelled(), r);
            end.report.reachedFixpoint && Pending(end.arena, cap) != []
    decreases |path| - r
  {
    var engine, exec := Pruning(a, path, cap), FullExecutor<C>();
    RunUnfolds(engine, source, p, exec, NeverCancelled(), r);
    if r + 1 < |path| {
      hide RunFrom, Consistent, KeysDistinct, OnTrunk, Trunk;
      TrunkRound(a, rev, path, cap, source, p, r);
      TrunkRun(a, rev, path, cap, source, Next(engine, source, p, exec, r), r + 1, i);
    } else {
      hide RunFrom, Consistent, KeysDistinct, Tracks;
      NothingAfterTheTrunk(a, p.arena, path, cap, i);
    }
  }

  lemma {:induction false} NothingReadyNoJobs<C>(a: Arena<C>, round: nat, n: nat)
    requires n <= |a| && forall j | 0 <= j < n && a[j].Ready() :: a[j].depth != round
    ensures ReadyJobs(a, round, n) == []
  {
    if n > 0 {
      NothingReadyNoJobs(a, round, n - 1);
    }
  }

  lemma NothingAfterTheTrunk<C>(a: Arena<C>, b: Arena<C>, path: seq<nat>, cap: nat, i: nat)
    requires |path| > 0 && Stripped(a, b, path, |path| - 1)
    requires i < |a| && IsPending(a[i], cap) && Under(a, path[|path| - 1], i)
    requires forall j: nat | j < |a| && Under(a, path[|path| - 1], j) && a[j].Ready() :: a[j].depth > |path| - 1
    ensures ReadyJobs(b, |path| - 1) == [] && Pending(b, cap) != []
  {
    NothingReadyNoJobs(b, |path| - 1, |b|);
    PendingMembers(b, cap, |b|);
    assert i in Pending(b, cap);
  }

  /** A node off the frontier is enough for some passes to make a run report a false fixpoint. */
  lemma OffTheFrontTheFlagLies<C(!new)>(a: Arena<C>, rev: nat, cap: nat, source: Text, i: nat)
    requires Consistent(a, rev) && Bounded(a, cap) && KeysDistinct(a) && a[0].status == Unparsed
    requires i < |a| && IsPending(a[i], cap) && a[i].depth > 0 && !Behind(a, i)
    ensures !TruthfulForAllPasses(a, cap)
  {
    var path := TrunkEndsEarly(a, rev, cap, i);
    var engine := Pruning(a, path, cap);
    FreshRunTracks(engine, source, a, rev);
    forall j: nat | j < |a| ensures Under(a, 0, j) {
      RootIsAboveAll(a, j);
    }
    hide RunFrom, Consistent, Bounded, KeysDistinct, Tracks;
    TrunkRun(a, rev, path, cap, source, Progress(a, EMPTY_REPORT, []), 0, i);
    FullExecutorIsComplete<C>();
    assert !Truthful(engine, source, a, FullExecutor<C>(), NeverCancelled());
  }

  /**
    * On a tree whose siblings differ in span or context, the fixpoint flag is truthful for every
    * passes, source, executor and cancellation exactly when every pending node is of round 0 or has an
    * unparsed parent one round shallower.  Without rounds it is always truthful.
    */
  lemma TruthfulForAllPassesIffFront<C(!new)>(a: Arena<C>, rev: nat, cap: nat)
    requires Consistent(a, rev) && Bounded(a, cap) && KeysDistinct(a)
    ensures TruthfulForAllPasses(a, cap) <==> cap == 0 || Front(a, cap, true, 0)
  {
    hide RunFrom, Consistent, Bounded, KeysDistinct;
    if cap == 0 || Front(a, cap, true, 0) {
      forall engine: Engine<C>, source: Text, exec: Executor<C>, token: Polls | engine.MaxRounds() == cap && Contract(exec)
        ensures Truthful(engine, source, a, exec, token)
      {
        if cap == 0 {
          RunUnfolds(engine, source, Progress(a, EMPTY_REPORT, []), exec, token, 0);
        } else {
          FixpointIsSound(engine, source, a, rev, exec, token);
        }
      }
    } else {
      FrontIsNeeded(a, rev, cap);
    }
  }

  lemma FrontIsNeeded<C(!new)>(a: Arena<C>, rev: nat, cap: nat)
    requires Consistent(a, rev) && Bounded(a, cap) && KeysDistinct(a) && cap > 0 && !Front(a, cap, true, 0)
    ensures !TruthfulForAllPasses(a, cap)
  {
    if a[0].status == Unparsed {
      var i: nat :| i < |a| && Open(a[i], cap, true) && a[i].depth > 0 && !Behind(a, i);
      OffTheFrontTheFlagLies(a, rev, cap, [], i);
    } else {
      var idle: Engine<C> := Engine([], false, Some(cap));
      FullExecutorIsComplete<C>();
      FlagIsTruthfulIffFront(idle, [], a, rev, FullExecutor<C>(), NeverCancelled());
      hide RunFrom, Consistent;
      assert !Truthful(idle, [], a, FullExecutor<C>(), NeverCancelled());
    }
  }
}
