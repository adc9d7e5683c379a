/** The node arena of a parse tree, as a value, and what merging an outcome does to it. */
module Arenas {
  import opened Spans

  datatype Status = Unparsed | Expanded | Done | Failed

  datatype Node<C> = Node(
    span: Span,
    ctx: C,
    status: Status,
    depth: nat,
    parent: Option<nat>,
    children: seq<nat>,
    attempts: nat,
    alive: bool)
  {
    /** Waiting for the pass of round `depth`. */
    predicate Ready() {
      alive && (status == Unparsed || status == Failed)
    }
  }

  type Arena<C> = seq<Node<C>>

  /** A child region a pass asks for: its span and its context. */
  type Kid<C> = (Span, C)

  datatype Outcome<C> = Expand(kids: seq<Kid<C>>) | Accept | Fail

  datatype ViolationKind = OutsideParent | WrongRevision | NotSmaller

  /** Why a pass attempt failed: it gave up, or the engine rejected the child at `slot`. */
  datatype Reason = GaveUp | Rejected(slot: nat, kind: ViolationKind)

  /** An outcome as the engine judges it. */
  datatype Verdict<C> = Accepted | Failing(reason: Reason) | Split(kids: seq<Kid<C>>)

  // ----- judging an outcome -----

  /** What the engine demands of a child region. */
  predicate Admissible(parent: Span, kid: Span, shrink: bool) {
    && kid.rev == parent.rev
    && parent.start <= kid.start && kid.end <= parent.end
    && (shrink ==> kid.end - kid.start < parent.end - parent.start)
  }

  /** The child breaks this demand, and none that comes before it. */
  predicate Breaks(parent: Span, kid: Span, shrink: bool, kind: ViolationKind) {
    match kind
    case WrongRevision => kid.rev != parent.rev
    case OutsideParent => kid.rev == parent.rev && (kid.start < parent.start || parent.end < kid.end)
    case NotSmaller =>
      && kid.rev == parent.rev && parent.start <= kid.start && kid.end <= parent.end
      && shrink && parent.end - parent.start <= kid.end - kid.start
  }

  function KidFault<C>(parent: Span, kid: Span, shrink: bool): (fault: Option<ViolationKind>)
    ensures fault.None? <==> Admissible(parent, kid, shrink)
    ensures fault.Some? ==> Breaks(parent, kid, shrink, fault.value)
  {
    if kid.rev != parent.rev then Some(WrongRevision)
    else if !parent.Contains(kid) then Some(OutsideParent)
    else if shrink && kid.Len() >= parent.Len() then Some(NotSmaller)
    else None
  }

  /** The first slot from `slot` on whose child is at fault. */
  function FirstFault<C>(parent: Span, kids: seq<Kid<C>>, shrink: bool, slot: nat): (r: Option<(nat, ViolationKind)>)
    requires slot <= |kids|
    ensures r.None? <==> forall k | slot <= k < |kids| :: KidFault<C>(parent, kids[k].0, shrink).None?
    ensures r.Some? ==> slot <= r.value.0 < |kids| && KidFault<C>(parent, kids[r.value.0].0, shrink) == Some(r.value.1)
    ensures r.Some? ==> forall k | slot <= k < r.value.0 :: KidFault<C>(parent, kids[k].0, shrink).None?
    decreases |kids| - slot
  {
    if slot == |kids| then None
    else match KidFault<C>(parent, kids[slot].0, shrink)
      case Some(kind) => Some((slot, kind))
      case None => FirstFault(parent, kids, shrink, slot + 1)
  }

  function Judge<C>(parent: Span, outcome: Outcome<C>, shrink: bool): Verdict<C> {
    match outcome
    case Accept => Accepted
    case Fail => Failing(GaveUp)
    case Expand(kids) =>
      if kids == [] then Accepted
      else match FirstFault(parent, kids, shrink, 0)
        case Some(fault) => Failing(Rejected(fault.0, fault.1))
        case None => Split(kids)
  }

  // ----- ancestry -----

  /** `j` is `i` or one of its descendants, by parent links alone. */
  ghost predicate Under<C>(a: Arena<C>, i: nat, j: nat)
    decreases j
  {
    j == i ||
    (j < |a| && a[j].parent.Some? && a[j].parent.value < j && Under(a, i, a[j].parent.value))
  }

  ghost predicate UnderAny<C>(a: Arena<C>, tops: seq<nat>, j: nat) {
    exists o | o in tops :: Under(a, o, j)
  }

  lemma {:induction false} UnderIsUpward<C>(a: Arena<C>, i: nat, j: nat)
    ensures Under(a, i, j) ==> i <= j
    decreases j
  {
    if Under(a, i, j) && j != i {
      UnderIsUpward(a, i, a[j].parent.value);
    }
  }

  /** Ancestry reads nothing but parent links. */
  lemma {:induction false} UnderFrame<C>(a: Arena<C>, b: Arena<C>, i: nat, j: nat)
    requires j < |a| <= |b|
    requires forall k | 0 <= k < |a| :: a[k].parent == b[k].parent
    ensures Under(a, i, j) == Under(b, i, j)
    decreases j
  {
    if j != i && a[j].parent.Some? && a[j].parent.value < j {
      UnderFrame(a, b, i, a[j].parent.value);
    }
  }

  lemma UnderTransitive<C>(a: Arena<C>, h: nat, i: nat, j: nat)
    requires Under(a, h, i) && Under(a, i, j)
    ensures Under(a, h, j)
    decreases j
  {
  }

  /** Two different children of one node have no descendant in common. */
  lemma {:induction false} SiblingsAreApart<C>(a: Arena<C>, p: nat, c: nat, d: nat, j: nat)
    requires c < |a| && d < |a| && c != d && p < c && p < d
    requires a[c].parent == Some(p) && a[d].parent == Some(p)
    ensures !(Under(a, c, j) && Under(a, d, j))
    decreases j
  {
    if Under(a, c, j) && Under(a, d, j) {
      if j == c {
        UnderIsUpward(a, d, p);
      } else if j == d {
        UnderIsUpward(a, c, p);
      } else {
        SiblingsAreApart(a, p, c, d, a[j].parent.value);
      }
    }
  }

  // ----- the shape of a reachable arena -----

  ghost predicate Distinct(s: seq<nat>) {
    forall i, j | 0 <= i < j < |s| :: s[i] != s[j]
  }

  /** Every non-root node hangs below a smaller id; the root is live. */
  ghost predicate Rooted<C>(a: Arena<C>) {
    && |a| > 0 && a[0].alive && a[0].parent.None?
    && forall i | 0 < i < |a| :: a[i].parent.Some? && a[i].parent.value < i
  }

  ghost predicate DeadListNothing<C>(a: Arena<C>) {
    forall i | 0 <= i < |a| && !a[i].alive :: a[i].children == []
  }

  ghost predicate NothingListedTwice<C>(a: Arena<C>) {
    forall i | 0 <= i < |a| :: Distinct(a[i].children)
  }

  ghost predicate ChildrenPointBack<C>(a: Arena<C>) {
    forall i: nat, c: nat {:trigger c in a[i].children} ::
      i < |a| && c in a[i].children ==> i < c < |a| && a[c].alive && a[c].parent == Some(i)
  }

  /** Listed children are live and point back; nothing is listed twice or by a dead node. */
  ghost predicate ListsAreSound<C>(a: Arena<C>) {
    DeadListNothing(a) && NothingListedTwice(a) && ChildrenPointBack(a)
  }

  /** The parent of `c` is live and lists it. */
  ghost predicate Listed<C>(a: Arena<C>, c: nat) {
    && 0 < c < |a| && a[c].parent.Some? && a[c].parent.value < c
    && a[a[c].parent.value].alive && c in a[a[c].parent.value].children
  }

  ghost predicate ListsAreComplete<C>(a: Arena<C>) {
    forall c: nat {:trigger Listed(a, c)} :: 0 < c < |a| && a[c].alive ==> Listed(a, c)
  }

  ghost predicate Shape<C>(a: Arena<C>) {
    Rooted(a) && ListsAreSound(a) && ListsAreComplete(a)
  }

  /** `j` is reached from `i` through child lists. */
  ghost predicate Reachable<C>(a: Arena<C>, i: nat, j: nat)
    decreases j
  {
    j == i || exists p: nat | p < j && p < |a| && j in a[p].children :: Reachable(a, i, p)
  }

  lemma {:induction false} LiveIsReachable<C>(a: Arena<C>, i: nat, j: nat)
    requires Shape(a) && j < |a| && a[j].alive && Under(a, i, j)
    ensures Reachable(a, i, j)
    decreases j
  {
    if j != i {
      assert Listed(a, j);
      LiveIsReachable(a, i, a[j].parent.value);
    }
  }

  lemma {:induction false} ReachableIsLive<C>(a: Arena<C>, i: nat, j: nat)
    requires ListsAreSound(a) && i < |a| && a[i].alive && Reachable(a, i, j)
    ensures j < |a| && a[j].alive && Under(a, i, j)
    decreases j
  {
    if j != i {
      var p: nat :| p < j && p < |a| && j in a[p].children && Reachable(a, i, p);
      ReachableIsLive(a, i, p);
    }
  }

  /** The live nodes are exactly those reachable from the root. */
  lemma LiveIsReachableFromRoot<C>(a: Arena<C>, j: nat)
    requires Shape(a) && j < |a|
    ensures a[j].alive <==> Reachable(a, 0, j)
  {
    RootIsAboveAll(a, j);
    if a[j].alive {
      LiveIsReachable(a, 0, j);
    }
    if Reachable(a, 0, j) {
      ReachableIsLive(a, 0, j);
    }
  }

  lemma {:induction false} RootIsAboveAll<C>(a: Arena<C>, j: nat)
    requires Rooted(a) && j < |a|
    ensures Under(a, 0, j)
    decreases j
  {
    if j > 0 {
      RootIsAboveAll(a, a[j].parent.value);
    }
  }

  // ----- removing subtrees -----

  function Killed<C>(n: Node<C>): Node<C> {
    n.(alive := false, children := [])
  }

  /** Every node under one of `tops` dies; every other node is kept field by field. */
  ghost function Prune<C>(a: Arena<C>, tops: seq<nat>): (b: Arena<C>)
    ensures |b| == |a|
  {
    seq(|a|, j requires 0 <= j < |a| => if UnderAny(a, tops, j) then Killed(a[j]) else a[j])
  }

  // ----- matching produced children against old ones -----

  function Key<C>(n: Node<C>): Kid<C> {
    (n.span, n.ctx)
  }

  ghost predicate InRange<C>(a: Arena<C>, ids: seq<nat>) {
    forall k | 0 <= k < |ids| :: ids[k] < |a|
  }

  /** The keys of the listed nodes, in list order. */
  function Keys<C>(a: Arena<C>, ids: seq<nat>): (keys: seq<Kid<C>>)
    requires InRange(a, ids)
    ensures |keys| == |ids|
    ensures forall k | 0 <= k < |ids| :: keys[k] == Key(a[ids[k]])
  {
    seq(|ids|, k requires 0 <= k < |ids| && InRange(a, ids) => Key(a[ids[k]]))
  }

  /** The position of the first live listed node with the wanted key, or the list's length. */
  function Position<C(==)>(a: Arena<C>, ids: seq<nat>, key: Kid<C>): (p: nat)
    requires InRange(a, ids)
    ensures p <= |ids|
    ensures p < |ids| ==> a[ids[p]].alive && Key(a[ids[p]]) == key
    ensures forall k | 0 <= k < p :: !(a[ids[k]].alive && Key(a[ids[k]]) == key)
  {
    if ids == [] then 0
    else if a[ids[0]].alive && Key(a[ids[0]]) == key then 0
    else 1 + Position(a, ids[1..], key)
  }

  function Without(ids: seq<nat>, p: nat): seq<nat>
    requires p < |ids|
  {
    ids[..p] + ids[p + 1..]
  }

  datatype Matching = Matching(reused: seq<Option<nat>>, orphans: seq<nat>)

  /** Greedy first fit: each produced child claims the first unclaimed old child with its key. */
  function Match<C(==)>(a: Arena<C>, olds: seq<nat>, kids: seq<Kid<C>>): (m: Matching)
    requires InRange(a, olds)
    ensures |m.reused| == |kids|
    ensures InRange(a, m.orphans)
    ensures forall k | 0 <= k < |m.orphans| :: m.orphans[k] in olds
  {
    if kids == [] then Matching([], olds)
    else
      var m := Match(a, olds, kids[..|kids| - 1]);
      var p := Position(a, m.orphans, kids[|kids| - 1]);
      if p < |m.orphans| then Matching(m.reused + [Some(m.orphans[p])], Without(m.orphans, p))
      else Matching(m.reused + [None], m.orphans)
  }

  /** A claimed node has the claimed key, is an old child, and is claimed once. */
  ghost predicate Claims<C>(a: Arena<C>, olds: seq<nat>, kids: seq<Kid<C>>, m: Matching) {
    && |m.reused| == |kids|
    && (forall s | 0 <= s < |kids| && m.reused[s].Some? ::
          m.reused[s].value in olds && m.reused[s].value !in m.orphans &&
          m.reused[s].value < |a| && Key(a[m.reused[s].value]) == kids[s])
    && (forall s, t | 0 <= s < t < |kids| && m.reused[s].Some? :: m.reused[s] != m.reused[t])
    && (forall i | i in m.orphans :: i in olds)
    && (forall i | i in olds :: i in m.orphans || Some(i) in m.reused)
    && Distinct(m.orphans)
  }

  lemma WithoutRemovesOne(ids: seq<nat>, p: nat)
    requires p < |ids| && Distinct(ids)
    ensures Distinct(Without(ids, p))
    ensures forall i :: i in Without(ids, p) <==> i in ids && i != ids[p]
  {
    var rest := Without(ids, p);
    forall i | i in ids && i != ids[p] ensures i in rest {
      var k :| 0 <= k < |ids| && ids[k] == i;
      assert rest[if k < p then k else k - 1] == i;
    }
  }

  lemma {:induction false} MatchClaims<C>(a: Arena<C>, olds: seq<nat>, kids: seq<Kid<C>>)
    requires Distinct(olds) && InRange(a, olds)
    ensures Claims(a, olds, kids, Match(a, olds, kids))
  {
    hide Claims, Without;
    if kids == [] {
      NothingClaimed(a, olds);
    } else {
      var n := |kids| - 1;
      MatchClaims(a, olds, kids[..n]);
      var m := Match(a, olds, kids[..n]);
      var p := Position(a, m.orphans, kids[n]);
      if p < |m.orphans| {
        ClaimOne(a, olds, kids, m, p);
      } else {
        ClaimNone(a, olds, kids, m);
      }
    }
  }

  lemma NothingClaimed<C>(a: Arena<C>, olds: seq<nat>)
    requires Distinct(olds)
    ensures Claims<C>(a, olds, [], Matching([], olds))
  {
  }

  lemma ClaimNone<C>(a: Arena<C>, olds: seq<nat>, kids: seq<Kid<C>>, m: Matching)
    requires kids != [] && Claims(a, olds, kids[..|kids| - 1], m)
    ensures Claims(a, olds, kids, Matching(m.reused + [None], m.orphans))
  {
    assert forall r | r in m.reused :: r in m.reused + [None];
  }

  lemma ClaimOne<C>(a: Arena<C>, olds: seq<nat>, kids: seq<Kid<C>>, m: Matching, p: nat)
    requires kids != [] && Claims(a, olds, kids[..|kids| - 1], m)
    requires p < |m.orphans| && m.orphans[p] < |a| && Key(a[m.orphans[p]]) == kids[|kids| - 1]
    ensures Claims(a, olds, kids, Matching(m.reused + [Some(m.orphans[p])], Without(m.orphans, p)))
  {
    WithoutRemovesOne(m.orphans, p);
    var m' := Matching(m.reused + [Some(m.orphans[p])], Without(m.orphans, p));
    assert m'.reused[|kids| - 1] == Some(m.orphans[p]);
    assert forall r | r in m.reused :: r in m'.reused;
  }

  /**
    * The greedy matching is maximal: the unclaimed keys are the multiset difference between the
    * old keys and the produced ones, so as many nodes are kept as any matching could keep.
    */
  lemma MatchIsMaximal<C>(a: Arena<C>, olds: seq<nat>, kids: seq<Kid<C>>)
    requires forall k | 0 <= k < |olds| :: olds[k] < |a| && a[olds[k]].alive
    ensures multiset(Keys(a, Match(a, olds, kids).orphans)) == multiset(Keys(a, olds)) - multiset(kids)
    ensures |olds| - |Match(a, olds, kids).orphans| == |multiset(Keys(a, olds)) * multiset(kids)|
  {
    OrphansAreTheDifference(a, olds, kids);
    var before, wanted := multiset(Keys(a, olds)), multiset(kids);
    assert before == (before - wanted) + before * wanted;
  }

  lemma OrphanStep<C>(a: Arena<C>, ids: seq<nat>, key: Kid<C>)
    requires forall k | 0 <= k < |ids| :: ids[k] < |a| && a[ids[k]].alive
    ensures var p := Position(a, ids, key);
            if p < |ids| then
              InRange(a, Without(ids, p)) && multiset(Keys(a, Without(ids, p))) == multiset(Keys(a, ids)) - multiset{key}
            else key !in multiset(Keys(a, ids))
  {
    var p := Position(a, ids, key);
    if p < |ids| {
      WithoutDropsTheKey(a, ids, p);
    } else {
      forall k | 0 <= k < |ids| ensures Keys(a, ids)[k] != key {
        assert a[ids[k]].alive;
      }
    }
  }

  lemma {:induction false} OrphansAreTheDifference<C>(a: Arena<C>, olds: seq<nat>, kids: seq<Kid<C>>)
    requires forall k | 0 <= k < |olds| :: olds[k] < |a| && a[olds[k]].alive
    ensures multiset(Keys(a, Match(a, olds, kids).orphans)) == multiset(Keys(a, olds)) - multiset(kids)
  {
    if kids != [] {
      var n := |kids| - 1;
      OrphansAreTheDifference(a, olds, kids[..n]);
      hide Keys;
      var m := Match(a, olds, kids[..n]);
      assert kids == kids[..n] + [kids[n]];
      forall k | 0 <= k < |m.orphans| ensures a[m.orphans[k]].alive {
        var o :| 0 <= o < |olds| && olds[o] == m.orphans[k];
      }
      OrphanStep(a, m.orphans, kids[n]);
    }
  }

  lemma MultisetWithout<T>(s: seq<T>, p: nat)
    requires p < |s|
    ensures multiset(s[..p] + s[p + 1..]) == multiset(s) - multiset{s[p]}
  {
    assert s == s[..p] + ([s[p]] + s[p + 1..]);
  }

  lemma WithoutDropsTheKey<C>(a: Arena<C>, ids: seq<nat>, p: nat)
    requires InRange(a, ids) && p < |ids|
    ensures InRange(a, Without(ids, p))
    ensures multiset(Keys(a, Without(ids, p))) == multiset(Keys(a, ids)) - multiset{Key(a[ids[p]])}
  {
    var keys, rest := Keys(a, ids), Keys(a, Without(ids, p));
    forall k | 0 <= k < |rest| ensures rest[k] == (keys[..p] + keys[p + 1..])[k] {
      assert Without(ids, p)[k] == ids[if k < p then k else k + 1];
    }
    assert rest == keys[..p] + keys[p + 1..];
    MultisetWithout(keys, p);
  }

  // ----- placing the children of an expanded node -----

  function NewNode<C>(parent: nat, kid: Kid<C>, depth: nat): Node<C> {
    Node(kid.0, kid.1, Unparsed, depth, Some(parent), [], 0, true)
  }

  datatype Placing<C> = Placing(ids: seq<nat>, added: seq<Node<C>>)

  /** Reused children keep their id; the others are appended to an arena of `base` nodes. */
  function Place<C>(base: nat, parent: nat, kids: seq<Kid<C>>, reused: seq<Option<nat>>, depth: nat): (p: Placing<C>)
    requires |reused| == |kids|
  {
    if kids == [] then Placing([], [])
    else
      var n := |kids| - 1;
      var p := Place(base, parent, kids[..n], reused[..n], depth);
      match reused[n]
      case Some(kept) => Placing(p.ids + [kept], p.added)
      case None => Placing(p.ids + [base + |p.added|], p.added + [NewNode(parent, kids[n], depth)])
  }

  ghost predicate Placed<C>(base: nat, parent: nat, kids: seq<Kid<C>>, reused: seq<Option<nat>>, depth: nat, p: Placing<C>)
    requires |reused| == |kids|
  {
    && |p.ids| == |kids|
    && (forall s | 0 <= s < |kids| && reused[s].Some? :: p.ids[s] == reused[s].value)
    && (forall s | 0 <= s < |kids| && reused[s].None? ::
          base <= p.ids[s] < base + |p.added| && p.added[p.ids[s] - base] == NewNode(parent, kids[s], depth))
    && (forall s, t | 0 <= s < t < |kids| && reused[s].None? && reused[t].None? :: p.ids[s] < p.ids[t])
    && (forall i | base <= i < base + |p.added| :: i in p.ids)
  }

  lemma {:induction false} PlaceIsPlaced<C>(base: nat, parent: nat, kids: seq<Kid<C>>, reused: seq<Option<nat>>, depth: nat)
    requires |reused| == |kids|
    ensures Placed(base, parent, kids, reused, depth, Place(base, parent, kids, reused, depth))
  {
    hide Placed;
    if kids == [] {
      NothingPlaced<C>(base, parent, depth);
    } else {
      var n := |kids| - 1;
      PlaceIsPlaced(base, parent, kids[..n], reused[..n], depth);
      PlaceOne(base, parent, kids, reused, depth, Place(base, parent, kids[..n], reused[..n], depth));
    }
  }

  lemma NothingPlaced<C>(base: nat, parent: nat, depth: nat)
    ensures Placed<C>(base, parent, [], [], depth, Placing([], []))
  {
  }

  lemma PlaceOne<C>(base: nat, parent: nat, kids: seq<Kid<C>>, reused: seq<Option<nat>>, depth: nat, p: Placing<C>)
    requires |reused| == |kids| > 0
    requires Placed(base, parent, kids[..|kids| - 1], reused[..|kids| - 1], depth, p)
    ensures Placed(base, parent, kids, reused, depth,
                   match reused[|kids| - 1]
                   case Some(kept) => Placing(p.ids + [kept], p.added)
                   case None => Placing(p.ids + [base + |p.added|], p.added + [NewNode(parent, kids[|kids| - 1], depth)]))
  {
    var n := |kids| - 1;
    var q := match reused[n]
      case Some(kept) => Placing(p.ids + [kept], p.added)
      case None => Placing(p.ids + [base + |p.added|], p.added + [NewNode(parent, kids[n], depth)]);
    forall s | 0 <= s < n
      ensures q.ids[s] == p.ids[s]
      ensures reused[s].Some? ==> q.ids[s] == reused[s].value
      ensures reused[s].None? ==> base <= q.ids[s] < base + |p.added| && q.added[q.ids[s] - base] == NewNode(parent, kids[s], depth)
    {
      assert reused[..n][s] == reused[s] && kids[..n][s] == kids[s];
    }
    forall s, t | 0 <= s < t < |kids| && reused[s].None? && reused[t].None? ensures q.ids[s] < q.ids[t] {
      assert reused[..n][s].None?;
      assert t < n ==> reused[..n][t].None?;
    }
    forall i | base <= i < base + |q.added| ensures i in q.ids {
      if i < base + |p.added| {
        assert i in p.ids;
      } else {
        assert q.ids[n] == i;
      }
    }
  }

  // ----- merging a verdict -----

  /** Drop the subtrees of `dropped`, append `added`, and replace node `id`. */
  ghost function Surgery<C>(a: Arena<C>, id: nat, dropped: seq<nat>, node: Node<C>, added: seq<Node<C>>): (b: Arena<C>)
    requires id < |a|
    ensures |b| == |a| + |added|
    ensures b[id] == node
    ensures forall j | 0 <= j < |a| && j != id :: b[j] == if UnderAny(a, dropped, j) then Killed(a[j]) else a[j]
    ensures forall j | |a| <= j < |b| :: b[j] == added[j - |a|]
  {
    (Prune(a, dropped) + added)[id := node]
  }

  /** The old children of `id` that a verdict discards. */
  ghost function Dropped<C>(a: Arena<C>, id: nat, v: Verdict<C>): (dropped: seq<nat>)
    requires id < |a| && InRange(a, a[id].children)
  {
    match v
    case Split(kids) => Match(a, a[id].children, kids).orphans
    case _ => a[id].children
  }

  /** The child ids and the new nodes a verdict brings. */
  ghost function Gained<C>(a: Arena<C>, id: nat, v: Verdict<C>): Placing<C>
    requires id < |a| && InRange(a, a[id].children)
  {
    match v
    case Split(kids) => Place(|a|, id, kids, Match(a, a[id].children, kids).reused, a[id].depth + 1)
    case _ => Placing([], [])
  }

  /** Node `n` after the verdict of the pass of its own round. */
  function Judged<C>(n: Node<C>, v: Verdict<C>, ids: seq<nat>): Node<C> {
    match v
    case Accepted => n.(status := Done, children := ids)
    case Failing(_) => n.(status := Failed, children := ids, depth := n.depth + 1, attempts := n.attempts + 1)
    case Split(_) => n.(status := Expanded, children := ids)
  }

  /** The arena after merging verdict `v` on node `id`, processed in round `a[id].depth`. */
  ghost function Merge<C>(a: Arena<C>, id: nat, v: Verdict<C>): (b: Arena<C>)
    requires id < |a| && InRange(a, a[id].children)
  {
    var g := Gained(a, id, v);
    Surgery(a, id, Dropped(a, id, v), Judged(a[id], v, g.ids), g.added)
  }
}
