/** Facts about a tree that one engine's merges, and edits, keep over whole histories. */
module Soundness {
  import opened Spans
  import opened Arenas
  import opened Invariants
  import opened Edits
  import opened Engines
  import opened Freshness
  import opened Runs
  import opened Batches

  // ----- rounds stay under the cap -----

  /** Waiting nodes have not passed the cap, settled ones were settled below it. */
  ghost predicate Bounded<C>(a: Arena<C>, cap: nat) {
    forall i | 0 <= i < |a| && a[i].alive ::
      a[i].depth <= cap && (a[i].status == Done || a[i].status == Expanded ==> a[i].depth < cap)
  }

  /** Everything known about a tree one engine has been driving over `source`. */
  ghost predicate Sound<C>(engine: Engine<C>, a: Arena<C>, rev: nat, source: Text) {
    Consistent(a, rev) && InText(a, source) && NoneStale(engine, source, a) && Bounded(a, engine.MaxRounds())
  }

  lemma MergeKeepsBounded<C>(engine: Engine<C>, source: Text, a: Arena<C>, id: nat)
    requires Shape(a) && id < |a| && Workable(a[id], engine.MaxRounds())
    requires Bounded(a, engine.MaxRounds())
    ensures Bounded(MergeNext(engine, source, a, id), engine.MaxRounds())
    ensures |MergeNext(engine, source, a, id)| > 0 && MergeNext(engine, source, a, id)[0].span == a[0].span
    ensures MergeNext(engine, source, a, id)[0].ctx == a[0].ctx
  {
    MergeEffect(a, id, NextVerdict(engine, source, a[id]));
    hide Merge;
    var b := MergeNext(engine, source, a, id);
    forall i | 0 <= i < |b| && b[i].alive
      ensures b[i].depth <= engine.MaxRounds()
      ensures b[i].status == Done || b[i].status == Expanded ==> b[i].depth < engine.MaxRounds()
    {
      assert i < |a| && i != id ==> b[i] == a[i];
    }
  }

  lemma MergeKeepsSound<C>(engine: Engine<C>, source: Text, a: Arena<C>, rev: nat, id: nat)
    requires Sound(engine, a, rev, source) && id < |a| && Workable(a[id], engine.MaxRounds())
    ensures Sound(engine, MergeNext(engine, source, a, id), rev, source)
  {
    hide NoneStale, Bounded;
    MergeNextKeepsConsistent(engine, source, a, rev, id);
    MergeKeepsFresh(engine, source, a, id);
    MergeKeepsBounded(engine, source, a, id);
  }

  /** Legitimate merges, whoever schedules them, keep a sound tree sound. */
  lemma {:induction false} ReplayKeepsSound<C>(engine: Engine<C>, source: Text, a: Arena<C>, rev: nat, log: seq<nat>)
    requires Sound(engine, a, rev, source) && Legit(engine, source, a, log)
    ensures Sound(engine, Replay(engine, source, a, log), rev, source)
  {
    hide Sound;
    if log != [] {
      var n := |log| - 1;
      ReplayKeepsSound(engine, source, a, rev, log[..n]);
      MergeKeepsSound(engine, source, Replay(engine, source, a, log[..n]), rev, log[n]);
    }
  }

  lemma EditKeepsBounded<C>(a: Arena<C>, e: Edit, rev': nat, cap: nat)
    requires Restartable(a) && Bounded(a, cap)
    ensures Bounded(EditAll(a, e, rev'), cap)
  {
  }

  /** With slice-local passes an edit keeps a sound tree sound, now over the edited text. */
  lemma EditKeepsSound<C(!new)>(engine: Engine<C>, a: Arena<C>, rev: nat, source: Text, e: Edit, source': Text, rev': nat)
    requires AllLocal(engine) && Sound(engine, a, rev, source) && Splices(e, source, source')
    ensures Restartable(a)
    ensures Sound(engine, EditAll(a, e, rev'), rev', source')
  {
    hide NoneStale, Bounded, AllLocal;
    EditKeepsConsistent(a, e, rev, rev');
    EditKeepsInText(a, e, source, source', rev, rev');
    EditKeepsFresh(engine, a, e, source, source', rev, rev');
    EditKeepsBounded(a, e, rev', engine.MaxRounds());
  }

  // ----- levelled schedules -----

  /** Pass `r` expands only contexts of level `r`, and only into contexts of level `r + 1`. */
  ghost predicate Levelled<C(!new)>(engine: Engine<C>, level: C -> nat) {
    forall source: Text, r: nat, span: Span, ctx: C {:trigger engine.VerdictAt(source, r, span, ctx)} ::
      var v := engine.VerdictAt(source, r, span, ctx);
      v.Split? ==> level(ctx) == r && forall k | 0 <= k < |v.kids| :: level(v.kids[k].1) == r + 1
  }

  /** Every live node's home round is the level of its context. */
  ghost predicate AtLevel<C>(a: Arena<C>, level: C -> nat) {
    forall i | 0 <= i < |a| && a[i].alive :: Home(a[i]) == level(a[i].ctx)
  }

  lemma MergeKeepsLevels<C(!new)>(engine: Engine<C>, source: Text, a: Arena<C>, id: nat, level: C -> nat)
    requires Levelled(engine, level) && Shape(a) && id < |a| && a[id].Ready() && AtLevel(a, level)
    ensures AtLevel(MergeNext(engine, source, a, id), level)
  {
    var v := NextVerdict(engine, source, a[id]);
    MergeEffect(a, id, v);
    hide Merge;
    var b := MergeNext(engine, source, a, id);
    forall i | 0 <= i < |b| && b[i].alive ensures Home(b[i]) == level(b[i].ctx) {
      if i >= |a| {
        var k :| 0 <= k < |v.kids| && v.kids[k] == Key(b[i]);
      }
    }
  }

  lemma {:induction false} ReplayKeepsLevels<C(!new)>(
      engine: Engine<C>, source: Text, a: Arena<C>, rev: nat, log: seq<nat>, level: C -> nat)
    requires Levelled(engine, level) && Consistent(a, rev) && Legit(engine, source, a, log) && AtLevel(a, level)
    ensures AtLevel(Replay(engine, source, a, log), level)
  {
    hide Levelled, AtLevel;
    if log != [] {
      var n := |log| - 1;
      ReplayKeepsLevels(engine, source, a, rev, log[..n], level);
      ReplayKeepsConsistent(engine, source, a, rev, log[..n]);
      MergeKeepsLevels(engine, source, Replay(engine, source, a, log[..n]), log[n], level);
    }
  }

  lemma EditKeepsLevels<C>(a: Arena<C>, e: Edit, rev': nat, level: C -> nat)
    requires Restartable(a) && AtLevel(a, level)
    ensures AtLevel(EditAll(a, e, rev'), level)
  {
  }

  // ----- strict shrinking -----

  /** The children of an expanded node are strictly shorter than it. */
  ghost predicate Shrunk<C>(a: Arena<C>) {
    forall p: nat, c: nat {:trigger c in a[p].children} ::
      p < |a| && c < |a| && a[p].status == Expanded && c in a[p].children ==> a[c].span.Len() < a[p].span.Len()
  }

  lemma MergeKeepsShrunk<C>(engine: Engine<C>, source: Text, a: Arena<C>, id: nat)
    requires engine.shrink && Shape(a) && id < |a| && a[id].Ready() && Shrunk(a)
    ensures Shrunk(MergeNext(engine, source, a, id))
  {
    var v := NextVerdict(engine, source, a[id]);
    MergeEffect(a, id, v);
    if v.Split? {
      MergeGivesTheKids(a, id, v);
    }
    JudgeIsLegal(a[id].span, engine.Attempt(source, a[id].depth, a[id].span, a[id].ctx), true);
    hide Merge;
    var b := MergeNext(engine, source, a, id);
    forall p: nat, c: nat | p < |b| && c < |b| && b[p].status == Expanded && c in b[p].children
      ensures b[c].span.Len() < b[p].span.Len()
    {
      MergedChild(a, b, id, v, p, c);
      if p == id {
        SplitChildIsShorter(a, b, id, v, c);
      } else {
        assert c in a[p].children;
      }
    }
  }

  lemma SplitChildIsShorter<C>(a: Arena<C>, b: Arena<C>, id: nat, v: Verdict<C>, c: nat)
    requires Merged(a, b, id, v) && v.Split? && Legal(a[id].span, v, true) && GivesTheKids(a, b, id, v.kids)
    requires c < |b| && c in b[id].children
    ensures b[c].span.Len() < b[id].span.Len()
  {
    var k :| 0 <= k < |b[id].children| && b[id].children[k] == c;
    assert Keys(b, b[id].children)[k] == v.kids[k];
    assert KidFault<C>(a[id].span, v.kids[k].0, true).None?;
  }

  lemma {:induction false} ReplayKeepsShrunk<C>(engine: Engine<C>, source: Text, a: Arena<C>, rev: nat, log: seq<nat>)
    requires engine.shrink && Consistent(a, rev) && Legit(engine, source, a, log) && Shrunk(a)
    ensures Shrunk(Replay(engine, source, a, log))
  {
    hide Shrunk;
    if log != [] {
      var n := |log| - 1;
      ReplayKeepsShrunk(engine, source, a, rev, log[..n]);
      ReplayKeepsConsistent(engine, source, a, rev, log[..n]);
      MergeKeepsShrunk(engine, source, Replay(engine, source, a, log[..n]), log[n]);
    }
  }

  lemma EditKeepsShrunk<C>(a: Arena<C>, e: Edit, rev: nat, rev': nat)
    requires Consistent(a, rev) && Shrunk(a)
    ensures Restartable(a)
    ensures Shrunk(EditAll(a, e, rev'))
  {
    ConsistentIsRestartable(a, rev);
    var b := EditAll(a, e, rev');
    forall p: nat, c: nat | p < |b| && c < |b| && b[p].status == Expanded && c in b[p].children
      ensures b[c].span.Len() < b[p].span.Len()
    {
      assert c in a[p].children;
      assert a[p].alive && a[c].alive;
      NestingIsKept(e, a[p].span, a[c].span, rev');
      UntouchedMovesRigidly(e, a[p].span, a[c].span, rev');
    }
  }

  /** The number of proper ancestors. */
  ghost function Generation<C>(a: Arena<C>, i: nat): nat
    requires Rooted(a) && i < |a|
    decreases i
  {
    if i == 0 then 0 else 1 + Generation(a, a[i].parent.value)
  }

  /** With nothing left unparsed, a root path of a shrinking tree has at most root-length + 1 nodes. */
  lemma {:induction false} PathsAreShort<C>(a: Arena<C>, rev: nat, i: nat)
    requires Consistent(a, rev) && Shrunk(a) && i < |a| && a[i].alive
    requires forall j | 0 <= j < |a| && a[j].alive :: a[j].status != Unparsed
    ensures Generation(a, i) + a[i].span.Len() <= a[0].span.Len()
    decreases i
  {
    if i > 0 {
      assert Listed(a, i);
      PathsAreShort(a, rev, a[i].parent.value);
    }
  }
}
