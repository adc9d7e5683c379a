/** Passes, schedules and how the engine judges one attempt. */
module Engines {
  import opened Spans
  import opened Arenas
  import opened Invariants

  /** One stage of a schedule, as a function of the text, the node's span and its context. */
  type Pass<!C> = (Text, Span, C) -> Outcome<C>

  /** The passes, one a round, whether children must shrink, and the round cap if there is one. */
  datatype Engine<!C> = Engine(passes: seq<Pass<C>>, shrink: bool, cap: Option<nat>) {

    /** The round cap in force: without one of its own, the engine has as many rounds as passes. */
    function MaxRounds(): nat {
      if cap.Some? then cap.value else |passes|
    }

    /** A round without a pass fails every job. */
    function Attempt(source: Text, round: nat, span: Span, ctx: C): Outcome<C> {
      if round < |passes| then passes[round](source, span, ctx) else Fail
    }

    function VerdictAt(source: Text, round: nat, span: Span, ctx: C): Verdict<C> {
      Judge(span, Attempt(source, round, span, ctx), shrink)
    }
  }

  // ----- passes that look at nothing but their own region -----

  /** The two child regions sit alike in their parents. */
  predicate KidShifted<C(==)>(kid: Kid<C>, span: Span, kid': Kid<C>, span': Span) {
    && kid.0.start - span.start == kid'.0.start - span'.start
    && kid.0.end - span.start == kid'.0.end - span'.start
    && kid.0.rev - span.rev == kid'.0.rev - span'.rev
    && kid.1 == kid'.1
  }

  /** The two outcomes are the same relative to their spans. */
  ghost predicate Shifted<C>(o: Outcome<C>, span: Span, o': Outcome<C>, span': Span) {
    match o
    case Accept => o'.Accept?
    case Fail => o'.Fail?
    case Expand(kids) =>
      && o'.Expand? && |o'.kids| == |kids|
      && forall k | 0 <= k < |kids| :: KidShifted(kids[k], span, o'.kids[k], span')
  }

  /** The pass sees only the bytes of its span, and answers relative to where the span lies. */
  ghost predicate SliceLocal<C(!new)>(pass: Pass<C>) {
    forall source: Text, span: Span, source': Text, span': Span, ctx: C |
      span.end <= |source| && span'.end <= |source'| && Slice(source, span) == Slice(source', span') ::
      Shifted(pass(source, span, ctx), span, pass(source', span', ctx), span')
  }

  ghost predicate AllLocal<C(!new)>(engine: Engine<C>) {
    forall r | 0 <= r < |engine.passes| :: SliceLocal(engine.passes[r])
  }

  /** Judging respects relative position, so a local pass reaches the same verdict on the same bytes. */
  lemma LocalVerdict<C(!new)>(engine: Engine<C>, round: nat, source: Text, span: Span, source': Text, span': Span, ctx: C)
    requires AllLocal(engine)
    requires span.end <= |source| && span'.end <= |source'| && Slice(source, span) == Slice(source', span')
    ensures var v, v' := engine.VerdictAt(source, round, span, ctx), engine.VerdictAt(source', round, span', ctx);
            && (v.Accepted? <==> v'.Accepted?)
            && (v.Failing? <==> v'.Failing?)
            && (v.Split? ==> |v.kids| == |v'.kids| && forall k | 0 <= k < |v.kids| :: KidShifted(v.kids[k], span, v'.kids[k], span'))
  {
    if round < |engine.passes| {
      var o, o' := engine.Attempt(source, round, span, ctx), engine.Attempt(source', round, span', ctx);
      assert SliceLocal(engine.passes[round]);
      assert Shifted(o, span, o', span');
      assert |Slice(source, span)| == span.Len() && |Slice(source', span')| == span'.Len();
      if o.Expand? {
        forall k | 0 <= k < |o.kids|
          ensures KidFault<C>(span, o.kids[k].0, engine.shrink) == KidFault<C>(span', o'.kids[k].0, engine.shrink)
        {
          assert KidShifted(o.kids[k], span, o'.kids[k], span');
        }
      }
    }
  }
}
