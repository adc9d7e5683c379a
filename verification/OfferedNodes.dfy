/** Which nodes a walk offers: the topmost failures, or with cascades all failures, in pre-order. */
module OfferedNodes {
  import opened Spans
  import opened Arenas
  import opened Invariants
  import opened Detaching
  import opened Diagnostics

  // ----- pre-order -----

  ghost function PreOrder<C>(a: Arena<C>, id: nat): seq<nat>
    requires ChildrenPointBack(a) && id < |a|
    decreases |a| - id, 1, 0
  {
    ChildrenAreBelow(a, id);
    [id] + PreOrderAll(a, id, a[id].children)
  }

  ghost function PreOrderAll<C>(a: Arena<C>, lo: nat, ids: seq<nat>): seq<nat>
    requires ChildrenPointBack(a) && lo < |a| && Below(a, lo, ids)
    decreases |a| - lo, 0, |ids|
  {
    if ids == [] then [] else PreOrderAll(a, lo, ids[..|ids| - 1]) + PreOrder(a, ids[|ids| - 1])
  }

  /** Pre-order below `id` holds exactly the live nodes below it. */
  lemma {:induction false} PreOrderHolds<C>(a: Arena<C>, id: nat, j: nat)
    requires Shape(a) && id < |a| && a[id].alive
    ensures j in PreOrder(a, id) <==> j < |a| && a[j].alive && Under(a, id, j)
    decreases |a| - id, 1, 0
  {
    ChildrenAreBelow(a, id);
    ChildrenInRange(a, id);
    PreOrderAllHolds(a, id, a[id].children, j);
    BelowMeansUnderAChild(a, id, j);
  }

  lemma BelowMeansUnderAChild<C>(a: Arena<C>, id: nat, j: nat)
    requires Shape(a) && id < |a|
    ensures j < |a| && a[j].alive && j != id ==> (Under(a, id, j) <==> UnderAny(a, a[id].children, j))
  {
    if j < |a| && a[j].alive && j != id {
      ShapeIsIntact(a, id);
      if Under(a, id, j) {
        BelowAChild(a, id, j);
      } else if UnderAny(a, a[id].children, j) {
        var o :| o in a[id].children && Under(a, o, j);
        assert Under(a, id, o);
        UnderTransitive(a, id, o, j);
      }
    }
  }

  lemma {:induction false} PreOrderAllHolds<C>(a: Arena<C>, lo: nat, ids: seq<nat>, j: nat)
    requires Shape(a) && lo < |a| && Below(a, lo, ids)
    requires forall k | 0 <= k < |ids| :: a[ids[k]].alive
    ensures j in PreOrderAll(a, lo, ids) <==> j < |a| && a[j].alive && UnderAny(a, ids, j)
    decreases |a| - lo, 0, |ids|
  {
    if ids != [] {
      var n := |ids| - 1;
      PreOrderAllHolds(a, lo, ids[..n], j);
      PreOrderHolds(a, ids[n], j);
      assert ids == ids[..n] + [ids[n]];
      UnderAnySnoc(a, ids[..n], ids[n], j);
    }
  }

  /** Pre-order lists no node twice. */
  lemma {:induction false} PreOrderIsDistinct<C>(a: Arena<C>, id: nat)
    requires Shape(a) && id < |a| && a[id].alive
    ensures Distinct(PreOrder(a, id))
    decreases |a| - id, 1, 0
  {
    ChildrenAreBelow(a, id);
    ChildrenInRange(a, id);
    var ids := a[id].children;
    assert Distinct(ids);
    forall k | 0 <= k < |ids| ensures a[ids[k]].alive && a[ids[k]].parent == Some(id) {
      assert ids[k] in ids;
    }
    PreOrderAllIsDistinct(a, id, ids);
    var rest := PreOrderAll(a, id, ids);
    forall k | 0 <= k < |rest| ensures rest[k] != id {
      assert rest[k] in rest;
      PreOrderAllHolds(a, id, ids, rest[k]);
      var o :| o in ids && Under(a, o, rest[k]);
      UnderIsUpward(a, o, rest[k]);
    }
  }

  lemma {:induction false} PreOrderAllIsDistinct<C>(a: Arena<C>, lo: nat, ids: seq<nat>)
    requires Shape(a) && lo < |a| && Below(a, lo, ids) && Distinct(ids)
    requires forall k | 0 <= k < |ids| :: a[ids[k]].alive && a[ids[k]].parent == Some(lo)
    ensures Distinct(PreOrderAll(a, lo, ids))
    decreases |a| - lo, 0, |ids|
  {
    if ids != [] {
      var n := |ids| - 1;
      PreOrderAllIsDistinct(a, lo, ids[..n]);
      PreOrderIsDistinct(a, ids[n]);
      var before, last := PreOrderAll(a, lo, ids[..n]), PreOrder(a, ids[n]);
      forall j, k | 0 <= j < |before| && 0 <= k < |last| ensures before[j] != last[k] {
        assert before[j] in before && last[k] in last;
        PreOrderAllHolds(a, lo, ids[..n], before[j]);
        PreOrderHolds(a, ids[n], last[k]);
        var o :| o in ids[..n] && Under(a, o, before[j]);
        var m :| 0 <= m < n && ids[m] == o;
        SiblingsAreApart(a, lo, o, ids[n], before[j]);
      }
      ConcatIsDistinct(before, last);
    }
  }

  lemma ConcatIsDistinct(s: seq<nat>, t: seq<nat>)
    requires Distinct(s) && Distinct(t) && forall j, k | 0 <= j < |s| && 0 <= k < |t| :: s[j] != t[k]
    ensures Distinct(s + t)
  {
  }

  // ----- filtering -----

  function Filter(s: seq<nat>, f: nat -> bool): seq<nat> {
    if s == [] then []
    else Filter(s[..|s| - 1], f) + if f(s[|s| - 1]) then [s[|s| - 1]] else []
  }

  lemma {:induction false} FilterAppend(s: seq<nat>, t: seq<nat>, f: nat -> bool)
    ensures Filter(s + t, f) == Filter(s, f) + Filter(t, f)
  {
    if t == [] {
      assert s + t == s;
    } else {
      var n := |t| - 1;
      FilterAppend(s, t[..n], f);
      assert (s + t)[..|s| + n] == s + t[..n];
    }
  }

  lemma {:induction false} FilterAgrees(s: seq<nat>, f: nat -> bool, g: nat -> bool)
    requires forall k | 0 <= k < |s| :: f(s[k]) == g(s[k])
    ensures Filter(s, f) == Filter(s, g)
  {
    if s != [] {
      FilterAgrees(s[..|s| - 1], f, g);
    }
  }

  lemma {:induction false} FilterNone(s: seq<nat>, f: nat -> bool)
    requires forall k | 0 <= k < |s| :: !f(s[k])
    ensures Filter(s, f) == []
  {
    if s != [] {
      FilterNone(s[..|s| - 1], f);
    }
  }

  lemma {:induction false} FilterMembers(s: seq<nat>, f: nat -> bool, j: nat)
    ensures j in Filter(s, f) <==> j in s && f(j)
  {
    if s != [] {
      FilterMembers(s[..|s| - 1], f, j);
    }
  }

  lemma {:induction false} FilterKeepsDistinct(s: seq<nat>, f: nat -> bool)
    requires Distinct(s)
    ensures Distinct(Filter(s, f))
  {
    if s != [] {
      var n := |s| - 1;
      FilterKeepsDistinct(s[..n], f);
      var kept := Filter(s[..n], f);
      forall k | 0 <= k < |kept| ensures kept[k] != s[n] {
        assert kept[k] in kept;
        FilterMembers(s[..n], f, kept[k]);
      }
    }
  }

  // ----- with cascades: every failure -----

  ghost predicate FailingAt<C>(a: Arena<C>, j: nat) {
    j < |a| && (a[j].status == Failed || a[j].status == Unparsed)
  }

  ghost function Failures<C>(a: Arena<C>): nat -> bool {
    (j: nat) => FailingAt(a, j)
  }

  /** With cascades the walk offers every failing node, in pre-order. */
  lemma {:induction false} CascadesOfferAllFailures<C>(a: Arena<C>, id: nat, underFailure: bool)
    requires ChildrenPointBack(a) && id < |a|
    ensures Offered(a, id, underFailure, true) == Filter(PreOrder(a, id), Failures(a))
    decreases |a| - id, 1, 0
  {
    ChildrenAreBelow(a, id);
    CascadesBelow(a, id, a[id].children, underFailure);
    FilterAppend([id], PreOrderAll(a, id, a[id].children), Failures(a));
    assert [id][..0] == [];
  }

  lemma {:induction false} CascadesBelow<C>(a: Arena<C>, lo: nat, ids: seq<nat>, underFailure: bool)
    requires ChildrenPointBack(a) && lo < |a| && Below(a, lo, ids)
    ensures OfferedAll(a, lo, ids, underFailure, true) == Filter(PreOrderAll(a, lo, ids), Failures(a))
    decreases |a| - lo, 0, |ids|
  {
    if ids != [] {
      var n := |ids| - 1;
      CascadesBelow(a, lo, ids[..n], underFailure);
      CascadesOfferAllFailures(a, ids[n], underFailure);
      FilterAppend(PreOrderAll(a, lo, ids[..n]), PreOrder(a, ids[n]), Failures(a));
    }
  }

  // ----- by default: the topmost failures -----

  /** A failing node none of whose proper ancestors, from `top` down, fails. */
  ghost predicate Topmost<C>(a: Arena<C>, top: nat, j: nat) {
    FailingAt(a, j) && forall p: nat | Under(a, top, p) && Under(a, p, j) && p != j :: !FailingAt(a, p)
  }

  ghost function Topmosts<C>(a: Arena<C>, top: nat): nat -> bool {
    (j: nat) => Topmost(a, top, j)
  }

  lemma {:induction false} NothingUnderAFailure<C>(a: Arena<C>, id: nat)
    requires ChildrenPointBack(a) && id < |a|
    ensures Offered(a, id, true, false) == []
    decreases |a| - id, 1, 0
  {
    ChildrenAreBelow(a, id);
    NothingBelowAFailure(a, id, a[id].children);
  }

  lemma {:induction false} NothingBelowAFailure<C>(a: Arena<C>, lo: nat, ids: seq<nat>)
    requires ChildrenPointBack(a) && lo < |a| && Below(a, lo, ids)
    ensures OfferedAll(a, lo, ids, true, false) == []
    decreases |a| - lo, 0, |ids|
  {
    if ids != [] {
      NothingBelowAFailure(a, lo, ids[..|ids| - 1]);
      NothingUnderAFailure(a, ids[|ids| - 1]);
    }
  }

  /** Two ancestors of one node are ancestors of one another. */
  lemma {:induction false} AncestorsAreOrdered<C>(a: Arena<C>, p: nat, q: nat, j: nat)
    requires Under(a, p, j) && Under(a, q, j)
    ensures Under(a, p, q) || Under(a, q, p)
    decreases j
  {
    if p != j && q != j {
      AncestorsAreOrdered(a, p, q, a[j].parent.value);
    }
  }

  lemma AncestorsAreEqual<C>(a: Arena<C>, p: nat, q: nat)
    requires Under(a, p, q) && Under(a, q, p)
    ensures p == q
  {
    UnderIsUpward(a, p, q);
    UnderIsUpward(a, q, p);
  }

  /** Below a healthy node, topmost means topmost below its child. */
  lemma TopmostBelowChild<C>(a: Arena<C>, id: nat, c: nat, j: nat)
    requires Rooted(a) && id < |a| && !IsFailing(a[id]) && c < |a| && a[c].parent == Some(id) && id < c && Under(a, c, j)
    ensures Topmost(a, id, j) <==> Topmost(a, c, j)
  {
    assert Under(a, id, c);
    if Topmost(a, id, j) {
      forall p: nat | Under(a, c, p) && Under(a, p, j) && p != j ensures !FailingAt(a, p) {
        UnderTransitive(a, id, c, p);
      }
    }
    if Topmost(a, c, j) {
      forall p: nat | Under(a, id, p) && Under(a, p, j) && p != j ensures !FailingAt(a, p) {
        AncestorsAreOrdered(a, p, c, j);
        if !Under(a, c, p) {
          assert Under(a, p, id);
          AncestorsAreEqual(a, p, id);
        }
      }
    }
  }

  /** By default the walk offers exactly the topmost failures, in pre-order. */
  lemma {:induction false} DefaultOffersTopmost<C>(a: Arena<C>, id: nat)
    requires Shape(a) && id < |a| && a[id].alive
    ensures Offered(a, id, false, false) == Filter(PreOrder(a, id), Topmosts(a, id))
    decreases |a| - id, 1, 0
  {
    ChildrenAreBelow(a, id);
    ChildrenInRange(a, id);
    var ids := a[id].children;
    var rest := PreOrderAll(a, id, ids);
    FilterAppend([id], rest, Topmosts(a, id));
    assert [id][..0] == [];
    if IsFailing(a[id]) {
      NothingBelowAFailure(a, id, ids);
      assert Topmost(a, id, id) by {
        forall p: nat | Under(a, id, p) && Under(a, p, id) ensures p == id {
          AncestorsAreEqual(a, id, p);
        }
      }
      forall k | 0 <= k < |rest| ensures !Topmost(a, id, rest[k]) {
        assert rest[k] in rest;
        PreOrderAllHolds(a, id, ids, rest[k]);
        var o :| o in ids && Under(a, o, rest[k]);
        UnderIsUpward(a, o, rest[k]);
        assert Under(a, id, o) && Under(a, id, id);
        UnderTransitive(a, id, o, rest[k]);
      }
      FilterNone(rest, Topmosts(a, id));
    } else {
      DefaultBelow(a, id, ids);
    }
  }

  lemma {:induction false} DefaultBelow<C>(a: Arena<C>, id: nat, ids: seq<nat>)
    requires Shape(a) && id < |a| && !IsFailing(a[id]) && Below(a, id, ids)
    requires forall k | 0 <= k < |ids| :: ids[k] in a[id].children
    ensures OfferedAll(a, id, ids, false, false) == Filter(PreOrderAll(a, id, ids), Topmosts(a, id))
    decreases |a| - id, 0, |ids|
  {
    if ids != [] {
      var n := |ids| - 1;
      var c := ids[n];
      assert c in a[id].children;
      DefaultBelow(a, id, ids[..n]);
      DefaultOffersTopmost(a, c);
      TopmostBelowChildAgrees(a, id, c);
      FilterAppend(PreOrderAll(a, id, ids[..n]), PreOrder(a, c), Topmosts(a, id));
    }
  }

  lemma TopmostBelowChildAgrees<C>(a: Arena<C>, id: nat, c: nat)
    requires Shape(a) && id < |a| && !IsFailing(a[id]) && c in a[id].children && c < |a|
    ensures Filter(PreOrder(a, c), Topmosts(a, id)) == Filter(PreOrder(a, c), Topmosts(a, c))
  {
    var part := PreOrder(a, c);
    forall k | 0 <= k < |part| ensures Topmost(a, id, part[k]) == Topmost(a, c, part[k]) {
      assert part[k] in part;
      PreOrderHolds(a, c, part[k]);
      TopmostBelowChild(a, id, c, part[k]);
    }
    FilterAgrees(part, Topmosts(a, id), Topmosts(a, c));
  }

  /** Either way no node is offered twice. */
  lemma OfferedIsDistinct<C>(a: Arena<C>, id: nat, cascades: bool)
    requires Shape(a) && id < |a| && a[id].alive
    ensures Distinct(Offered(a, id, false, cascades))
  {
    PreOrderIsDistinct(a, id);
    if cascades {
      CascadesOfferAllFailures(a, id, false);
      FilterKeepsDistinct(PreOrder(a, id), Failures(a));
    } else {
      DefaultOffersTopmost(a, id);
      FilterKeepsDistinct(PreOrder(a, id), Topmosts(a, id));
    }
  }

  /** Either way nothing is offered exactly when every live node is done or expanded. */
  lemma NothingOfferedIffAllFine<C>(a: Arena<C>, cascades: bool)
    requires Shape(a)
    ensures Offered(a, 0, false, cascades) == [] <==>
            forall j | 0 <= j < |a| && a[j].alive :: a[j].status == Done || a[j].status == Expanded
  {
    if Offered(a, 0, false, cascades) != [] {
      var i := Offered(a, 0, false, cascades)[0];
      assert i in Offered(a, 0, false, cascades);
      OfferedFails(a, i, cascades);
    }
    if j: nat :| j < |a| && a[j].alive && FailingAt(a, j) {
      if cascades {
        RootIsAboveAll(a, j);
        CascadesOfferAllFailures(a, 0, false);
        PreOrderHolds(a, 0, j);
        FilterMembers(PreOrder(a, 0), Failures(a), j);
      } else {
        var i := FailureIsReported(a, j);
      }
    }
  }

  /** What is offered is live and fails. */
  lemma OfferedFails<C>(a: Arena<C>, i: nat, cascades: bool)
    requires Shape(a) && i in Offered(a, 0, false, cascades)
    ensures i < |a| && a[i].alive && FailingAt(a, i)
  {
    PreOrderHolds(a, 0, i);
    if cascades {
      CascadesOfferAllFailures(a, 0, false);
      FilterMembers(PreOrder(a, 0), Failures(a), i);
    } else {
      DefaultOffersTopmost(a, 0);
      FilterMembers(PreOrder(a, 0), Topmosts(a, 0), i);
    }
  }

  /** Every live failing node has an offered ancestor-or-self. */
  lemma {:induction false} FailureIsReported<C>(a: Arena<C>, j: nat) returns (i: nat)
    requires Shape(a) && FailingAt(a, j) && a[j].alive
    ensures i in Offered(a, 0, false, false) && Under(a, i, j)
    decreases j
  {
    if p: nat :| Under(a, 0, p) && Under(a, p, j) && p != j && FailingAt(a, p) {
      UnderIsUpward(a, p, j);
      AncestorsAreLive(a, p, j);
      i := FailureIsReported(a, p);
      UnderTransitive(a, i, p, j);
    } else {
      i := j;
      RootIsAboveAll(a, j);
      DefaultOffersTopmost(a, 0);
      PreOrderHolds(a, 0, j);
      assert Topmost(a, 0, j);
      FilterMembers(PreOrder(a, 0), Topmosts(a, 0), j);
    }
  }

  lemma {:induction false} AncestorsAreLive<C>(a: Arena<C>, p: nat, j: nat)
    requires Shape(a) && j < |a| && a[j].alive && Under(a, p, j)
    ensures p < |a| && a[p].alive
    decreases j
  {
    if p != j {
      assert Listed(a, j);
      AncestorsAreLive(a, p, a[j].parent.value);
    }
  }

  /** And only one: no two offered nodes lie above one node. */
  lemma FailureIsReportedOnce<C>(a: Arena<C>, i: nat, i': nat, j: nat)
    requires Shape(a) && i in Offered(a, 0, false, false) && i' in Offered(a, 0, false, false)
    requires Under(a, i, j) && Under(a, i', j)
    ensures i == i'
  {
    DefaultOffersTopmost(a, 0);
    FilterMembers(PreOrder(a, 0), Topmosts(a, 0), i);
    FilterMembers(PreOrder(a, 0), Topmosts(a, 0), i');
    PreOrderHolds(a, 0, i);
    PreOrderHolds(a, 0, i');
    AncestorsAreOrdered(a, i, i', j);
  }
}
