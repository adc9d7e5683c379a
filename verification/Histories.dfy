/** Long-lived documents: any history of edits and runs, and what the tree is worth after it. */
module Histories {
  import opened Spans
  import opened Arenas
  import opened Invariants
  import opened Edits
  import opened Engines
  import opened Executors
  import opened Freshness
  import opened Runs
  import opened Batches
  import opened Queries
  import opened Soundness
  import opened Reference
  import opened Frontier

  datatype Snapshot<C> = Snapshot(arena: Arena<C>, rev: nat, source: Text)

  /** An edit that turned the source into `text`, or a run of any engine, with any executor and cancellation. */
  datatype Event<!C> = Edited(edit: Edit, text: Text) | Ran(engine: Engine<C>, exec: Executor<C>, token: Polls)

  /** A new document: an unparsed root over the whole text. */
  function Opened<C>(source: Text, rev: nat, ctx: C): Snapshot<C> {
    Snapshot([RootNode(Range(0, |source|, rev), ctx)], rev, source)
  }

  /** The event leads from `s` to `t`. */
  ghost predicate Leads<C(!new)>(s: Snapshot<C>, event: Event<C>, t: Snapshot<C>) {
    match event
    case Edited(edit, text) =>
      Splices(edit, s.source, text) && Restartable(s.arena) &&
      t == Snapshot(EditAll(s.arena, edit, s.rev + 1), s.rev + 1, text)
    case Ran(engine, exec, token) =>
      Contract(exec) && t == Snapshot(Run(engine, s.source, s.arena, exec, token).arena, s.rev, s.source)
  }

  /** `states` follow one another under the events of `history`. */
  ghost predicate Follows<C(!new)>(states: seq<Snapshot<C>>, history: seq<Event<C>>) {
    && |states| == |history| + 1
    && forall k | 0 <= k < |history| :: Leads(states[k], history[k], states[k + 1])
  }

  /** `states` are the states a document goes through, from being opened on, under the events of `history`. */
  ghost predicate Behaves<C(!new)>(states: seq<Snapshot<C>>, history: seq<Event<C>>, ctx: C) {
    Follows(states, history) && states[0] == Opened(states[0].source, states[0].rev, ctx)
  }

  /** The first `n` events hold no runs but those of `engine`. */
  ghost predicate DrivenBy<C(!new)>(engine: Engine<C>, history: seq<Event<C>>, n: nat) {
    n <= |history| && forall j | 0 <= j < n && history[j].Ran? :: history[j].engine == engine
  }

  /** The root still carries the context it was opened with and covers the whole current text. */
  ghost predicate CoversText<C>(s: Snapshot<C>, ctx: C) {
    |s.arena| > 0 && s.arena[0].span == Range(0, |s.source|, s.rev) && s.arena[0].ctx == ctx
  }

  // ----- one event -----

  lemma {:induction false} ReplayKeepsRoot<C>(engine: Engine<C>, source: Text, a: Arena<C>, rev: nat, log: seq<nat>)
    requires Consistent(a, rev) && Legit(engine, source, a, log)
    ensures var b := Replay(engine, source, a, log);
            |b| > 0 && b[0].span == a[0].span && b[0].ctx == a[0].ctx
  {
    if log != [] {
      var n := |log| - 1;
      ReplayKeepsRoot(engine, source, a, rev, log[..n]);
      ReplayKeepsConsistent(engine, source, a, rev, log[..n]);
      var b := Replay(engine, source, a, log[..n]);
      MergeEffect(b, log[n], NextVerdict(engine, source, b[log[n]]));
    }
  }

  /** A run is its log of legitimate merges. */
  lemma RunHasALog<C(!new)>(engine: Engine<C>, source: Text, a: Arena<C>, rev: nat, exec: Executor<C>, token: Polls) returns (log: seq<nat>)
    requires Contract(exec) && Consistent(a, rev)
    ensures Legit(engine, source, a, log)
    ensures Run(engine, source, a, exec, token).arena == Replay(engine, source, a, log)
  {
    WholeRunTracks(engine, source, a, rev, exec, token);
    log := NodesOf(Run(engine, source, a, exec, token).log);
  }

  lemma EditKeepsCover<C>(s: Snapshot<C>, edit: Edit, text: Text, ctx: C)
    requires Consistent(s.arena, s.rev) && CoversText(s, ctx) && Splices(edit, s.source, text)
    ensures Restartable(s.arena)
    ensures CoversText(Snapshot(EditAll(s.arena, edit, s.rev + 1), s.rev + 1, text), ctx)
  {
    ConsistentIsRestartable(s.arena, s.rev);
    WholeTextStaysWhole(edit, s.source, text, s.rev, s.rev + 1);
    assert s.arena[0].alive;
  }

  lemma EventKeepsInvariant<C(!new)>(s: Snapshot<C>, event: Event<C>, t: Snapshot<C>)
    requires Leads(s, event, t) && Consistent(s.arena, s.rev)
    ensures Consistent(t.arena, t.rev) && t.rev == s.rev + if event.Edited? then 1 else 0
  {
    hide Consistent, Run, Restartable, Splices, Contract, Legit, Replay;
    match event {
      case Edited(edit, text) =>
        EditKeepsConsistent(s.arena, edit, s.rev, s.rev + 1);
      case Ran(engine, exec, token) =>
        var log := RunHasALog(engine, s.source, s.arena, s.rev, exec, token);
        ReplayKeepsConsistent(engine, s.source, s.arena, s.rev, log);
    }
  }

  lemma EventKeepsConsistent<C(!new)>(s: Snapshot<C>, event: Event<C>, t: Snapshot<C>, ctx: C)
    requires Leads(s, event, t) && Consistent(s.arena, s.rev) && CoversText(s, ctx)
    ensures Consistent(t.arena, t.rev) && CoversText(t, ctx)
    ensures t.rev == s.rev + if event.Edited? then 1 else 0
  {
    EventKeepsInvariant(s, event, t);
    hide Consistent, Run, Restartable, Splices, Contract, Legit, Replay;
    match event {
      case Edited(edit, text) =>
        EditKeepsCover(s, edit, text, ctx);
      case Ran(engine, exec, token) =>
        var log := RunHasALog(engine, s.source, s.arena, s.rev, exec, token);
        ReplayKeepsRoot(engine, s.source, s.arena, s.rev, log);
    }
  }

  lemma EventKeepsSound<C(!new)>(engine: Engine<C>, s: Snapshot<C>, event: Event<C>, t: Snapshot<C>)
    requires AllLocal(engine) && Leads(s, event, t) && (event.Ran? ==> event.engine == engine) && Sound(engine, s.arena, s.rev, s.source)
    ensures Sound(engine, t.arena, t.rev, t.source)
  {
    hide Sound, Run, AllLocal, Restartable, Splices, Contract;
    match event {
      case Edited(edit, text) =>
        EditKeepsSound(engine, s.arena, s.rev, s.source, edit, text, s.rev + 1);
      case Ran(_, exec, token) =>
        RunKeepsSound(engine, s, exec, token);
    }
  }

  lemma RunKeepsSound<C(!new)>(engine: Engine<C>, s: Snapshot<C>, exec: Executor<C>, token: Polls)
    requires Contract(exec) && Sound(engine, s.arena, s.rev, s.source)
    ensures Sound(engine, Run(engine, s.source, s.arena, exec, token).arena, s.rev, s.source)
  {
    hide Sound, Run, Consistent, Contract, Legit, Replay;
    SoundIsConsistent(engine, s.arena, s.rev, s.source);
    var log := RunHasALog(engine, s.source, s.arena, s.rev, exec, token);
    ReplayKeepsSound(engine, s.source, s.arena, s.rev, log);
  }

  lemma SoundIsConsistent<C>(engine: Engine<C>, a: Arena<C>, rev: nat, source: Text)
    requires Sound(engine, a, rev, source)
    ensures Consistent(a, rev)
  {
  }

  lemma EventKeepsLevels<C(!new)>(engine: Engine<C>, s: Snapshot<C>, event: Event<C>, t: Snapshot<C>, level: C -> nat)
    requires Levelled(engine, level) && Leads(s, event, t) && (event.Ran? ==> event.engine == engine) && Consistent(s.arena, s.rev)
    requires AtLevel(s.arena, level) && HomesStep(s.arena)
    ensures AtLevel(t.arena, level) && HomesStep(t.arena)
  {
    hide Levelled, AtLevel, HomesStep, Run, Consistent;
    match event {
      case Edited(edit, text) =>
        EditKeepsLevels(s.arena, edit, s.rev + 1, level);
        EditKeepsHomesStep(s.arena, edit, s.rev, s.rev + 1);
      case Ran(_, exec, token) =>
        var log := RunHasALog(engine, s.source, s.arena, s.rev, exec, token);
        ReplayKeepsLevels(engine, s.source, s.arena, s.rev, log, level);
        ReplayKeepsHomesStep(engine, s.source, s.arena, s.rev, log, level);
    }
  }

  // ----- whole histories -----

  lemma OpenedIsConsistent<C>(source: Text, rev: nat, ctx: C)
    ensures Consistent(Opened(source, rev, ctx).arena, rev) && CoversText(Opened(source, rev, ctx), ctx)
  {
  }

  lemma OpenedIsSound<C>(engine: Engine<C>, source: Text, rev: nat, ctx: C)
    ensures var s := Opened(source, rev, ctx);
            Sound(engine, s.arena, rev, source) && CoversText(s, ctx) && NoLeftovers(s.arena) && Aligned(s.arena) &&
            HomesStep(s.arena) && Front(s.arena, engine.MaxRounds(), true, 0) && Front(s.arena, engine.MaxRounds(), false, 0)
  {
  }

  /** From a new tree with any root, whatever engines have run on it, the arena invariant holds. */
  lemma {:induction false} AnyRootStaysConsistent<C(!new)>(
      states: seq<Snapshot<C>>, history: seq<Event<C>>, span: Span, ctx: C, k: nat)
    requires Follows(states, history) && k < |states|
    requires states[0].arena == [RootNode(span, ctx)] && states[0].rev == span.rev
    ensures Consistent(states[k].arena, states[k].rev)
    decreases k
  {
    if k > 0 {
      hide Consistent;
      assert Leads(states[k - 1], history[k - 1], states[k]);
      AnyRootStaysConsistent(states, history, span, ctx, k - 1);
      EventKeepsInvariant(states[k - 1], history[k - 1], states[k]);
    }
  }

  /** In every reachable state, whatever engines have run, the arena invariant holds and the root covers the text. */
  lemma {:induction false} ReachableIsConsistent<C(!new)>(
      states: seq<Snapshot<C>>, history: seq<Event<C>>, ctx: C, k: nat)
    requires Behaves(states, history, ctx) && k < |states|
    ensures Consistent(states[k].arena, states[k].rev) && CoversText(states[k], ctx)
    decreases k
  {
    OpenedIsConsistent(states[0].source, states[0].rev, ctx);
    if k > 0 {
      assert Leads(states[k - 1], history[k - 1], states[k]);
      ReachableIsConsistent(states, history, ctx, k - 1);
      EventKeepsConsistent(states[k - 1], history[k - 1], states[k], ctx);
    }
  }

  /** With slice-local passes no reachable state has a stale node. */
  lemma {:induction false} ReachableIsSound<C(!new)>(
      engine: Engine<C>, states: seq<Snapshot<C>>, history: seq<Event<C>>, ctx: C, k: nat)
    requires AllLocal(engine) && Behaves(states, history, ctx) && k < |states| && DrivenBy(engine, history, k)
    ensures Sound(engine, states[k].arena, states[k].rev, states[k].source)
    decreases k
  {
    OpenedIsSound(engine, states[0].source, states[0].rev, ctx);
    hide Sound, AllLocal;
    if k > 0 {
      assert Leads(states[k - 1], history[k - 1], states[k]);
      ReachableIsSound(engine, states, history, ctx, k - 1);
      EventKeepsSound(engine, states[k - 1], history[k - 1], states[k]);
    }
  }

  lemma {:induction false} ReachableIsLevelled<C(!new)>(
      engine: Engine<C>, states: seq<Snapshot<C>>, history: seq<Event<C>>, ctx: C, k: nat, level: C -> nat)
    requires Levelled(engine, level) && level(ctx) == 0
    requires Behaves(states, history, ctx) && k < |states| && DrivenBy(engine, history, k)
    ensures AtLevel(states[k].arena, level) && HomesStep(states[k].arena)
    decreases k
  {
    OpenedIsSound(engine, states[0].source, states[0].rev, ctx);
    if k > 0 {
      hide Levelled, AtLevel, HomesStep, Leads;
      assert Leads(states[k - 1], history[k - 1], states[k]);
      ReachableIsLevelled(engine, states, history, ctx, k - 1, level);
      ReachableIsConsistent(states, history, ctx, k - 1);
      EventKeepsLevels(engine, states[k - 1], history[k - 1], states[k], level);
    }
  }

  /**
    * Incremental equals from scratch, exactly.  After any history of edits and possibly cancelled
    * runs of one engine with slice-local passes, once no pass below the cap has work left, the live
    * tree is the one parsing the current text from nothing gives if and only if every child of an
    * expanded node started in the round after its parent's.
    */
  lemma IncrementalIsScratchIffAligned<C(!new)>(
      engine: Engine<C>, states: seq<Snapshot<C>>, history: seq<Event<C>>, ctx: C, k: nat)
    requires AllLocal(engine) && Behaves(states, history, ctx) && k < |states| && DrivenBy(engine, history, k)
    requires Quiet(states[k].arena, engine.MaxRounds())
    ensures |states[k].arena| > 0 && ChildrenPointBack(states[k].arena)
    ensures Abstract(states[k].arena, 0) == Scratch(engine, states[k].source, Range(0, |states[k].source|, states[k].rev), ctx) <==> Aligned(states[k].arena)
  {
    ReachableIsConsistent(states, history, ctx, k);
    ReachableIsSound(engine, states, history, ctx, k);
    AgreesWithScratchIffAligned(engine, states[k].arena, states[k].rev, states[k].source);
  }

  /** For a levelled schedule it always does. */
  lemma LevelledIncrementalIsScratch<C(!new)>(
      engine: Engine<C>, states: seq<Snapshot<C>>, history: seq<Event<C>>, ctx: C, k: nat, level: C -> nat)
    requires AllLocal(engine) && Levelled(engine, level) && level(ctx) == 0
    requires Behaves(states, history, ctx) && k < |states| && DrivenBy(engine, history, k)
    requires Quiet(states[k].arena, engine.MaxRounds())
    ensures |states[k].arena| > 0 && ChildrenPointBack(states[k].arena)
    ensures Abstract(states[k].arena, 0) == Scratch(engine, states[k].source, Range(0, |states[k].source|, states[k].rev), ctx)
  {
    IncrementalIsScratchIffAligned(engine, states, history, ctx, k);
    ReachableIsSound(engine, states, history, ctx, k);
    ReachableIsLevelled(engine, states, history, ctx, k, level);
    LevelledIsAligned(engine, states[k].arena, states[k].rev, states[k].source, level);
  }

  // ----- runs that are never cut short -----

  ghost predicate Uncut<C(!new)>(event: Event<C>) {
    event.Ran? ==> Complete(event.exec) && forall r: nat :: !event.token(r)
  }

  /** A run that is not cut short, on a levelled schedule, works off everything an edit has reset. */
  lemma UncutEventKeepsReset<C(!new)>(engine: Engine<C>, s: Snapshot<C>, event: Event<C>, t: Snapshot<C>)
    requires Leads(s, event, t) && (event.Ran? ==> event.engine == engine) && Uncut(event) && Consistent(s.arena, s.rev)
    requires HomesStep(s.arena) && Reset(s.arena, engine.MaxRounds(), false)
    ensures Reset(t.arena, engine.MaxRounds(), false)
    ensures event.Ran? ==> Quiet(t.arena, engine.MaxRounds())
  {
    hide Consistent, HomesStep, Reset, RunFrom, Quiet, Front;
    match event {
      case Edited(edit, text) =>
        EditKeepsReset(s.arena, edit, s.rev, s.rev + 1, engine.MaxRounds(), false);
      case Ran(_, exec, token) =>
        ResetIsFront(s.arena, s.rev, engine.MaxRounds(), false);
        RunWorksEverythingOff(engine, s.source, s.arena, s.rev, exec, token);
        CompleteIsNotCancelled(engine, s.source, Progress(s.arena, EMPTY_REPORT, []), exec, token, 0);
        NoneOpenIsNothingPending(t.arena, engine.MaxRounds());
        NoneOpenIsReset(t.arena, engine.MaxRounds(), false);
    }
  }

  lemma {:induction false} UncutHistoryIsReset<C(!new)>(
      engine: Engine<C>, states: seq<Snapshot<C>>, history: seq<Event<C>>, ctx: C, k: nat, level: C -> nat)
    requires Levelled(engine, level) && level(ctx) == 0
    requires Behaves(states, history, ctx) && k < |states| && DrivenBy(engine, history, k)
    requires forall j | 0 <= j < k :: Uncut(history[j])
    ensures Reset(states[k].arena, engine.MaxRounds(), false)
    ensures k > 0 && history[k - 1].Ran? ==> Quiet(states[k].arena, engine.MaxRounds())
    decreases k
  {
    hide Levelled, HomesStep, Leads, Uncut, Quiet;
    if k > 0 {
      assert Leads(states[k - 1], history[k - 1], states[k]);
      UncutHistoryIsReset(engine, states, history, ctx, k - 1, level);
      ReachableIsConsistent(states, history, ctx, k - 1);
      ReachableIsLevelled(engine, states, history, ctx, k - 1, level);
      UncutEventKeepsReset(engine, states[k - 1], history[k - 1], states[k]);
    }
  }

  /**
    * Edit and re-run equals parsing from scratch: for slice-local passes on a levelled schedule,
    * after any history of edits and runs that are not cut short, whenever the last event is a run,
    * the live tree is exactly the parse of the current text.
    */
  lemma EditAndRerunIsScratch<C(!new)>(
      engine: Engine<C>, states: seq<Snapshot<C>>, history: seq<Event<C>>, ctx: C, k: nat, level: C -> nat)
    requires AllLocal(engine) && Levelled(engine, level) && level(ctx) == 0
    requires Behaves(states, history, ctx) && k < |states| && DrivenBy(engine, history, k)
    requires forall j | 0 <= j < k :: Uncut(history[j])
    requires k > 0 && history[k - 1].Ran?
    ensures |states[k].arena| > 0 && ChildrenPointBack(states[k].arena)
    ensures Abstract(states[k].arena, 0) == Scratch(engine, states[k].source, Range(0, |states[k].source|, states[k].rev), ctx)
  {
    UncutHistoryIsReset(engine, states, history, ctx, k, level);
    LevelledIncrementalIsScratch(engine, states, history, ctx, k, level);
  }

  /** One uncut run on a new document gives the parse from scratch, for any passes and any schedule. */
  lemma FreshRunIsScratch<C(!new)>(engine: Engine<C>, source: Text, rev: nat, ctx: C, exec: Executor<C>, token: Polls)
    requires Complete(exec) && forall r: nat :: !token(r)
    ensures var end := Run(engine, source, Opened(source, rev, ctx).arena, exec, token);
            && Quiet(end.arena, engine.MaxRounds())
            && |end.arena| > 0 && ChildrenPointBack(end.arena)
            && Abstract(end.arena, 0) == Scratch(engine, source, Range(0, |source|, rev), ctx)
            && (end.report.reachedFixpoint <==> Pending(end.arena, engine.MaxRounds()) == [])
  {
    OpenedIsSound(engine, source, rev, ctx);
    var a := Opened(source, rev, ctx).arena;
    SoundIsConsistent(engine, a, rev, source);
    assert a[0].span == Range(0, |source|, rev) && a[0].ctx == ctx;
    hide Sound, Front, NoLeftovers, Aligned, Opened, RunFrom, Quiet, Abstract, Parse;
    FixpointIsSound(engine, source, a, rev, exec, token);
    RunWorksEverythingOff(engine, source, a, rev, exec, token);
    CompleteIsNotCancelled(engine, source, Progress(a, EMPTY_REPORT, []), exec, token, 0);
    var log := RunHasALog(engine, source, a, rev, exec, token);
    ReplayKeepsSound(engine, source, a, rev, log);
    ReplayKeepsAligned(engine, source, a, rev, log);
    ReplayKeepsRoot(engine, source, a, rev, log);
    var b := Run(engine, source, a, exec, token).arena;
    SoundIsConsistent(engine, b, rev, source);
    AgreesWithScratchIffAligned(engine, b, rev, source);
  }

  /**
    * A text that every pass gives up on is offered to all of them, one a round, or in as many rounds as
    * the cap says; rounds beyond the last pass fail as well.
    */
  lemma HopelessTextIsTriedByAll<C(!new)>(engine: Engine<C>, source: Text, rev: nat, ctx: C, exec: Executor<C>, token: Polls)
    requires Complete(exec) && forall r: nat :: !token(r)
    requires forall r | 0 <= r < |engine.passes| :: engine.passes[r](source, Range(0, |source|, rev), ctx) == Fail
    ensures var end := Run(engine, source, Opened(source, rev, ctx).arena, exec, token).arena;
            var rounds := match engine.cap case Some(n) => n case None => |engine.passes|;
            && |end| > 0 && end[0].children == [] && end[0].depth == rounds && end[0].attempts == rounds
            && end[0].status == if rounds == 0 then Unparsed else Failed
  {
    FreshRunIsScratch(engine, source, rev, ctx, exec, token);
    var span: Span := Range(0, |source|, rev);
    forall r: nat | r < engine.MaxRounds() ensures engine.VerdictAt(source, r, span, ctx).Failing? {
    }
    ParseSkipsFailures(engine, source, 0, 0, engine.MaxRounds(), span, ctx);
    var end := Run(engine, source, Opened(source, rev, ctx).arena, exec, token).arena;
    assert |Abstract(end, 0).kids| == |end[0].children|;
  }

  /**
    * Incremental equals from scratch, against the engine itself and exactly: however the history was
    * cut short, once no pass below the cap has work left, the live tree is the one a fresh run on the
    * current text leaves if and only if it is aligned.
    */
  lemma IncrementalIsFreshRunIffAligned<C(!new)>(
      engine: Engine<C>, states: seq<Snapshot<C>>, history: seq<Event<C>>, ctx: C, k: nat, exec: Executor<C>, token: Polls)
    requires AllLocal(engine) && Behaves(states, history, ctx) && k < |states| && DrivenBy(engine, history, k)
    requires Quiet(states[k].arena, engine.MaxRounds())
    requires Complete(exec) && forall r: nat :: !token(r)
    ensures var s := states[k]; var end := Run(engine, s.source, Opened(s.source, s.rev, ctx).arena, exec, token);
            && |s.arena| > 0 && ChildrenPointBack(s.arena) && |end.arena| > 0 && ChildrenPointBack(end.arena)
            && (Abstract(s.arena, 0) == Abstract(end.arena, 0) <==> Aligned(s.arena))
  {
    IncrementalIsScratchIffAligned(engine, states, history, ctx, k);
    FreshRunIsScratch(engine, states[k].source, states[k].rev, ctx, exec, token);
  }

  /** For a levelled schedule it always is. */
  lemma LevelledIncrementalIsFreshRun<C(!new)>(
      engine: Engine<C>, states: seq<Snapshot<C>>, history: seq<Event<C>>, ctx: C, k: nat, level: C -> nat,
      exec: Executor<C>, token: Polls)
    requires AllLocal(engine) && Levelled(engine, level) && level(ctx) == 0
    requires Behaves(states, history, ctx) && k < |states| && DrivenBy(engine, history, k)
    requires Quiet(states[k].arena, engine.MaxRounds())
    requires Complete(exec) && forall r: nat :: !token(r)
    ensures var s := states[k]; var end := Run(engine, s.source, Opened(s.source, s.rev, ctx).arena, exec, token);
            && |s.arena| > 0 && ChildrenPointBack(s.arena) && |end.arena| > 0 && ChildrenPointBack(end.arena)
            && Abstract(s.arena, 0) == Abstract(end.arena, 0)
  {
    LevelledIncrementalIsScratch(engine, states, history, ctx, k, level);
    FreshRunIsScratch(engine, states[k].source, states[k].rev, ctx, exec, token);
  }

  /** In particular after any uncut history that ends with a run. */
  lemma EditAndRerunIsFreshRun<C(!new)>(
      engine: Engine<C>, states: seq<Snapshot<C>>, history: seq<Event<C>>, ctx: C, k: nat, level: C -> nat,
      exec: Executor<C>, token: Polls)
    requires AllLocal(engine) && Levelled(engine, level) && level(ctx) == 0
    requires Behaves(states, history, ctx) && k < |states| && DrivenBy(engine, history, k)
    requires forall j | 0 <= j < k :: Uncut(history[j])
    requires k > 0 && history[k - 1].Ran?
    requires Complete(exec) && forall r: nat :: !token(r)
    ensures var s := states[k]; var end := Run(engine, s.source, Opened(s.source, s.rev, ctx).arena, exec, token);
            && |s.arena| > 0 && ChildrenPointBack(s.arena) && |end.arena| > 0 && ChildrenPointBack(end.arena)
            && Abstract(s.arena, 0) == Abstract(end.arena, 0)
  {
    UncutHistoryIsReset(engine, states, history, ctx, k, level);
    LevelledIncrementalIsFreshRun(engine, states, history, ctx, k, level, exec, token);
  }

  ghost predicate Shrinks<C(!new)>(event: Event<C>) {
    event.Ran? ==> event.engine.shrink
  }

  lemma EventKeepsShrunk<C(!new)>(s: Snapshot<C>, event: Event<C>, t: Snapshot<C>)
    requires Leads(s, event, t) && Shrinks(event) && Consistent(s.arena, s.rev) && Shrunk(s.arena)
    ensures Shrunk(t.arena)
  {
    hide Shrunk, Run, Consistent, Restartable, Contract, Legit, Replay;
    match event {
      case Edited(edit, text) =>
        EditKeepsShrunk(s.arena, edit, s.rev, s.rev + 1);
      case Ran(engine, exec, token) =>
        var log := RunHasALog(engine, s.source, s.arena, s.rev, exec, token);
        ReplayKeepsShrunk(engine, s.source, s.arena, s.rev, log);
    }
  }

  /** If every run enforces shrinking, whatever its engine, children of expanded nodes are strictly shorter in every reachable state. */
  lemma {:induction false} ReachableIsShrunk<C(!new)>(
      states: seq<Snapshot<C>>, history: seq<Event<C>>, ctx: C, k: nat)
    requires Behaves(states, history, ctx) && k < |states| && forall j | 0 <= j < k :: Shrinks(history[j])
    ensures Shrunk(states[k].arena)
    decreases k
  {
    if k > 0 {
      hide Shrunk, Leads, Consistent, CoversText;
      assert Leads(states[k - 1], history[k - 1], states[k]);
      ReachableIsShrunk(states, history, ctx, k - 1);
      ReachableIsConsistent(states, history, ctx, k - 1);
      EventKeepsShrunk(states[k - 1], history[k - 1], states[k]);
    }
  }

  /** In a shrinking document with nothing unparsed, a root path has at most text-length + 1 nodes. */
  lemma ReachablePathsAreShort<C(!new)>(
      states: seq<Snapshot<C>>, history: seq<Event<C>>, ctx: C, k: nat, i: nat)
    requires Behaves(states, history, ctx) && k < |states| && forall j | 0 <= j < k :: Shrinks(history[j])
    requires i < |states[k].arena| && states[k].arena[i].alive
    requires forall j | 0 <= j < |states[k].arena| && states[k].arena[j].alive :: states[k].arena[j].status != Unparsed
    ensures Rooted(states[k].arena) && Generation(states[k].arena, i) <= |states[k].source|
  {
    ReachableIsConsistent(states, history, ctx, k);
    ReachableIsShrunk(states, history, ctx, k);
    PathsAreShort(states[k].arena, states[k].rev, i);
  }
}
