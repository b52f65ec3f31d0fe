/** Whole runs of the weight hierarchy: consistent sums, a truthful cache, and shares that never add
 * up to more than the whole. */
module IoCostTheorems {
  import opened Arith
  import opened IoCostModel
  import opened IoCostProofs

  // ---------- the cached shares ----------

  /** A listed group's cached shares are never from the future, and with nothing pending, those of the
   * current generation are what a walk from the root would give. */
  ghost predicate CacheTrue(s: Ioc, i: nat)
    requires IsTree(s.groups) && i < |s.groups|
  {
    var g := s.groups[i];
    && g.hwGen <= s.gen
    && (!s.updated && g.hwGen == s.gen ==> forall k: Kind :: g.Hw(k) == Fresh(s.groups, i, k))
  }

  ghost predicate Good(s: Ioc) {
    Inv(s.groups) && forall i: nat | 0 < i < |s.groups| && s.groups[i].listed :: CacheTrue(s, i)
  }

  /** Committing a pending change makes every cached share old. */
  lemma CommitCache(s: Ioc)
    requires Good(s)
    ensures Good(Commit(s))
  {
    var t := Commit(s);
    forall i: nat | 0 < i < |t.groups| && t.groups[i].listed ensures CacheTrue(t, i) {
      assert CacheTrue(s, i);
    }
  }

  /** A pending change invalidates nothing yet: only the bound on generations is claimed. */
  lemma PendingCache(s: Ioc, gs: seq<Group>)
    requires Good(s) && Inv(gs) && |gs| == |s.groups|
    requires forall j: nat | 0 < j < |gs| && gs[j].listed ::
               gs[j].hwGen < s.gen || (s.groups[j].listed && gs[j].hwGen == s.groups[j].hwGen)
    ensures Good(s.(groups := gs, updated := true))
  {
    var t := s.(groups := gs, updated := true);
    forall i: nat | 0 < i < |t.groups| && t.groups[i].listed ensures CacheTrue(t, i) {
      assert s.groups[i].listed ==> CacheTrue(s, i);
    }
  }

  lemma ActivateGood(s: Ioc, i: nat)
    requires Good(s) && 0 < i < |s.groups|
    ensures Good(Activate(s, i).0)
  {
    ActivateKeeps(s, i);
    var g := s.groups[i];
    if !g.listed && g.activeSum == 0 && !AncestorListed(s.groups, i) {
      var gs1 := s.groups[i := g.(hwGen := s.gen - 1, listed := true)];
      var u := Min(g.weight, if g.lastInuse != 0 then g.lastInuse else g.weight);
      WalkShape(gs1, i, g.weight, u);
      var gs2 := Walk(gs1, i, g.weight, u);
      PendingCache(s, gs2);
      CommitCache(s.(groups := gs2, updated := true));
    }
  }

  lemma DeactivateGood(s: Ioc, i: nat)
    requires Good(s) && 0 < i < |s.groups| && s.groups[i].listed
    ensures Good(Deactivate(s, i))
  {
    DeactivateKeeps(s, i);
    WalkShape(s.groups[i := s.groups[i].(lastInuse := s.groups[i].inuse)], i, 0, 0);
    PendingCache(s, Deactivate(s, i).groups);
  }

  lemma DonateGood(s: Ioc, i: nat, inuse: int)
    requires Good(s) && 0 < i < |s.groups| && s.groups[i].listed && 1 <= inuse
    ensures Good(Donate(s, i, inuse))
  {
    DonateKeeps(s, i, inuse);
    WalkShape(s.groups, i, s.groups[i].weight, Min(s.groups[i].weight, inuse));
    PendingCache(s, Donate(s, i, inuse).groups);
  }

  lemma RefreshGood(s: Ioc, i: nat)
    requires Good(s) && i < |s.groups|
    ensures Good(Refresh(s, i))
  {
    RefreshKeeps(s, i);
    SameWeightsGood(s, Refresh(s, i), i);
  }

  /** Changes that leave all weights alone keep the cache true, if they refresh what they touch. */
  lemma SameWeightsGood(s: Ioc, t: Ioc, i: nat)
    requires Good(s) && Inv(t.groups) && SameWeights(s.groups, t.groups)
    requires t.gen == s.gen && t.updated == s.updated && i < |s.groups|
    requires forall j: nat | j < |s.groups| :: t.groups[j].listed == s.groups[j].listed
    requires forall j: nat | j < |s.groups| && j != i :: t.groups[j].hwGen == s.groups[j].hwGen
    requires forall j: nat, k: Kind | j < |s.groups| && j != i :: t.groups[j].Hw(k) == s.groups[j].Hw(k)
    requires || (t.groups[i].hwGen == s.groups[i].hwGen && forall k: Kind :: t.groups[i].Hw(k) == s.groups[i].Hw(k))
             || (t.groups[i].hwGen == s.gen && forall k: Kind :: t.groups[i].Hw(k) == Fresh(s.groups, i, k))
    ensures Good(t)
  {
    forall j: nat | 0 < j < |t.groups| && t.groups[j].listed ensures CacheTrue(t, j) {
      assert CacheTrue(s, j);
      forall k: Kind ensures Fresh(t.groups, j, k) == Fresh(s.groups, j, k) {
        SameShare(s.groups, t.groups, j, k);
      }
    }
  }

  lemma ReweighGood(s: Ioc, i: nat, weight: int)
    requires Good(s) && 0 < i < |s.groups| && 1 <= weight && 1 <= s.groups[i].weight
    ensures Good(Reweigh(s, i, weight))
  {
    ReweighKeeps(s, i, weight);
    var g := s.groups[i];
    var t := Reweigh(s, i, weight);
    if weight != g.weight && g.active != 0 {
      WalkShape(s.groups, i, weight, Min(weight, CeilDiv(g.inuse * weight, g.weight)));
      PendingCache(s, t.groups);
      CommitCache(s.(groups := t.groups, updated := true));
      assert t == Commit(s.(groups := t.groups, updated := true));
    } else {
      SameWeightsGood(s, t, i);
    }
  }

  // ---------- runs ----------

  datatype Event =
    | Start(i: nat)
    | Stop(i: nat)
    | Give(i: nat, inuse: int)
    | Weigh(i: nat, weight: int)
    | Read(i: nat)
    | Publish

  predicate Enabled(s: Ioc, e: Event) {
    && IsTree(s.groups)
    && match e
       case Start(i) => 0 < i < |s.groups|
       case Stop(i) => 0 < i < |s.groups| && s.groups[i].listed
       case Give(i, inuse) => 0 < i < |s.groups| && s.groups[i].listed && 1 <= inuse
       case Weigh(i, weight) => 0 < i < |s.groups| && 1 <= weight && 1 <= s.groups[i].weight
       case Read(i) => i < |s.groups|
       case Publish => true
  }

  function Apply(s: Ioc, e: Event): Ioc
    requires Enabled(s, e)
  {
    match e
    case Start(i) => Activate(s, i).0
    case Stop(i) => Deactivate(s, i)
    case Give(i, inuse) => Donate(s, i, inuse)
    case Weigh(i, weight) => Reweigh(s, i, weight)
    case Read(i) => Refresh(s, i)
    case Publish => Commit(s)
  }

  lemma ApplyGood(s: Ioc, e: Event)
    requires Good(s) && Enabled(s, e)
    ensures Good(Apply(s, e))
  {
    match e
    case Start(i) => ActivateGood(s, i);
    case Stop(i) => DeactivateGood(s, i);
    case Give(i, inuse) => DonateGood(s, i, inuse);
    case Weigh(i, weight) => ReweighGood(s, i, weight);
    case Read(i) => RefreshGood(s, i);
    case Publish => CommitCache(s);
  }

  /** `t` is what some sequence of operations makes of `s`. */
  ghost predicate Leads(s: Ioc, es: seq<Event>, t: Ioc)
    decreases |es|
  {
    if es == [] then s == t else Enabled(s, es[0]) && Leads(Apply(s, es[0]), es[1..], t)
  }

  /** A hierarchy in which no group has been used yet. */
  ghost predicate Unused(s: Ioc) {
    && IsTree(s.groups)
    && forall i | 0 <= i < |s.groups| ::
         var g := s.groups[i];
         && 1 <= g.weight && g.active == 0 && g.inuse == 0 && g.lastInuse == 0
         && g.activeSum == 0 && g.inuseSum == 0 && !g.listed
  }

  lemma {:induction false} NoChildSum(gs: seq<Group>, p: nat, n: nat, k: Kind)
    requires n <= |gs| && forall i | 0 <= i < |gs| :: gs[i].active == 0 && gs[i].inuse == 0
    ensures ChildSum(gs, p, n, k) == 0
  {
    if n > 0 {
      NoChildSum(gs, p, n - 1, k);
    }
  }

  lemma UnusedGood(s: Ioc)
    requires Unused(s)
    ensures Good(s)
  {
    forall p: nat, k: Kind | p < |s.groups| ensures s.groups[p].Sum(k) == ChildSum(s.groups, p, |s.groups|, k) {
      NoChildSum(s.groups, p, |s.groups|, k);
    }
  }

  lemma {:induction false} RunGood(s: Ioc, es: seq<Event>, t: Ioc)
    requires Good(s) && Leads(s, es, t)
    ensures Good(t)
    decreases |es|
  {
    if es != [] {
      hide Good, Apply;
      ApplyGood(s, es[0]);
      RunGood(Apply(s, es[0]), es[1..], t);
    }
  }

  ghost predicate Reachable(t: Ioc) {
    exists s, es :: Unused(s) && Leads(s, es, t)
  }

  lemma ReachableGood(t: Ioc)
    requires Reachable(t)
    ensures Good(t)
  {
    var s, es :| Unused(s) && Leads(s, es, t);
    UnusedGood(s);
    RunGood(s, es, t);
  }

  /** After any run every parent's sums are exactly its children's weights, no group has more in use
   * than it is entitled to, and a group is active exactly when it or something below it issues IO. */
  lemma HierarchyConsistent(s: Ioc, i: nat)
    requires Reachable(s) && i < |s.groups|
    ensures forall k: Kind :: s.groups[i].Sum(k) == ChildSum(s.groups, i, |s.groups|, k)
    ensures 0 < i ==> 0 <= s.groups[i].inuse <= s.groups[i].active
    ensures 0 < i ==> s.groups[i].active ==
                      if s.groups[i].listed || 0 < s.groups[i].activeSum then s.groups[i].weight else 0
    ensures s.groups[i].listed ==> s.groups[i].activeSum == 0
  {
    ReachableGood(s);
    assert 0 < i ==> Bounded(s.groups[i]) && Settled(s.groups[i]);
  }

  /** With no weight change pending, a cached share of the current generation is the share a fresh
   * walk from the root computes. */
  lemma CacheAgrees(s: Ioc, i: nat, k: Kind)
    requires Reachable(s) && 0 < i < |s.groups| && s.groups[i].listed
    requires !s.updated && s.groups[i].hwGen == s.gen
    ensures IsTree(s.groups) && s.groups[i].Hw(k) == Max(Share(s.groups, i, k), 1)
  {
    ReachableGood(s);
    assert CacheTrue(s, i);
  }

  // ---------- the part in use of an inner group ----------

  /** An inner group in use has its weight in use in the ratio of its children's sums, rounded up. */
  predicate InRatio(g: Group) {
    !g.listed && 0 < g.activeSum ==>
      g.weight * g.inuseSum <= g.inuse * g.activeSum < g.weight * g.inuseSum + g.activeSum
  }

  ghost predicate AllInRatio(gs: seq<Group>, except: set<int>) {
    forall i | 0 < i < |gs| && i !in except :: InRatio(gs[i])
  }

  lemma DerivedInRatio(g: Group)
    requires (g.active, g.inuse) == Derived(g)
    ensures InRatio(g)
  {
    if 0 < g.activeSum {
      CeilAtMost(g.weight * g.inuseSum, g.activeSum, g.inuse);
      CeilAtMost(g.weight * g.inuseSum, g.activeSum, g.inuse - 1);
      assert (g.inuse - 1) * g.activeSum == g.inuse * g.activeSum - g.activeSum;
    }
  }

  lemma {:induction false} WalkInRatio(gs: seq<Group>, i: nat, active: int, inuse: int, first: nat)
    requires IsTree(gs) && i < |gs| && AllInRatio(gs, {first, i})
    requires i == first || (active, inuse) == Derived(gs[i])
    ensures AllInRatio(Walk(gs, i, active, inuse), {first})
    decreases i
  {
    hide InRatio;
    if i > 0 {
      var p := gs[i].parent;
      var gs1 := Shift(gs, i, active, inuse);
      if i != first {
        DerivedInRatio(gs1[i]);
      }
      assert AllInRatio(gs1, {first, p});
      var (a, u) := Derived(gs1[p]);
      if a == gs1[p].active && u == gs1[p].inuse {
        DerivedInRatio(gs1[p]);
      } else {
        WalkInRatio(gs1, p, a, u, first);
      }
    }
  }

  /** Weights are only written to groups that have no child in use. */
  predicate AtLeaf(s: Ioc, e: Event) {
    e.Weigh? && e.i < |s.groups| ==> s.groups[e.i].activeSum == 0
  }

  lemma ApplyInRatio(s: Ioc, e: Event)
    requires Good(s) && Enabled(s, e) && AtLeaf(s, e) && AllInRatio(s.groups, {})
    ensures AllInRatio(Apply(s, e).groups, {})
  {
    hide Walk;
    var gs := s.groups;
    match e
    case Start(i) =>
      var g := gs[i];
      if !g.listed && g.activeSum == 0 && !AncestorListed(gs, i) {
        var gs1 := gs[i := g.(hwGen := s.gen - 1, listed := true)];
        var u := Min(g.weight, if g.lastInuse != 0 then g.lastInuse else g.weight);
        WalkInRatio(gs1, i, g.weight, u, i);
        WalkShape(gs1, i, g.weight, u);
      }
    case Stop(i) =>
      var gs1 := gs[i := gs[i].(lastInuse := gs[i].inuse)];
      WalkInRatio(gs1, i, 0, 0, i);
      WalkShape(gs1, i, 0, 0);
    case Give(i, inuse) =>
      WalkInRatio(gs, i, gs[i].weight, Min(gs[i].weight, inuse), i);
      WalkShape(gs, i, gs[i].weight, Min(gs[i].weight, inuse));
    case Weigh(i, weight) =>
      var u := Min(weight, CeilDiv(gs[i].inuse * weight, gs[i].weight));
      WalkInRatio(gs, i, weight, u, i);
      WalkShape(gs, i, weight, u);
    case Read(i) =>
    case Publish =>
  }

  ghost predicate LeafRun(s: Ioc, es: seq<Event>)
    decreases |es|
  {
    es == [] || (AtLeaf(s, es[0]) && (Enabled(s, es[0]) ==> LeafRun(Apply(s, es[0]), es[1..])))
  }

  lemma {:induction false} RunInRatio(s: Ioc, es: seq<Event>, t: Ioc)
    requires Good(s) && AllInRatio(s.groups, {}) && Leads(s, es, t) && LeafRun(s, es)
    ensures AllInRatio(t.groups, {})
    decreases |es|
  {
    if es != [] {
      hide Good, Apply, AllInRatio;
      ApplyGood(s, es[0]);
      ApplyInRatio(s, es[0]);
      RunInRatio(Apply(s, es[0]), es[1..], t);
    }
  }

  /** After every run that writes weights only where no child is in use, what an inner group has in use is
   * its children's part, rounded up. */
  lemma InUseInRatio(s: Ioc, es: seq<Event>, t: Ioc, i: nat)
    requires Unused(s) && Leads(s, es, t) && LeafRun(s, es) && 0 < i < |t.groups|
    ensures InRatio(t.groups[i])
  {
    UnusedGood(s);
    RunInRatio(s, es, t);
  }

  /** Writing the weight of an inner group rounds a second time: 2 in use out of 3, for children that have 1
   * in use out of 2, becomes 4 out of 5, although 3 would do. */
  lemma ReweighRoundsTwice()
    ensures var root := Group(0, 1, 0, 0, 0, 3, 2, false, 0, 0, 0);
            var inner := Group(0, 3, 3, 2, 0, 2, 1, false, 0, 0, 0);
            var leaf := Group(1, 2, 2, 1, 0, 0, 0, true, 0, 0, 0);
            var s := Ioc([root, inner, leaf], false, 1);
            && Good(s) && InRatio(inner)
            && Reweigh(s, 1, 5).groups[1].inuse == 4 && !InRatio(Reweigh(s, 1, 5).groups[1])
  {
    var root := Group(0, 1, 0, 0, 0, 3, 2, false, 0, 0, 0);
    var inner := Group(0, 3, 3, 2, 0, 2, 1, false, 0, 0, 0);
    var leaf := Group(1, 2, 2, 1, 0, 0, 0, true, 0, 0, 0);
    var gs := [root, inner, leaf];
    forall p: nat, k: Kind | p < 3 ensures gs[p].Sum(k) == ChildSum(gs, p, 3, k) {
      assert ChildSum(gs, p, 1, k) == 0;
      assert ChildSum(gs, p, 2, k) == if p == 0 then inner.Of(k) else 0;
      assert ChildSum(gs, p, 3, k) == ChildSum(gs, p, 2, k) + if p == 1 then leaf.Of(k) else 0;
    }
    assert CeilDiv(2 * 5, 3) == 4;
    WalkShape(gs, 1, 5, 4);
  }

  // ---------- what a group has in use itself ----------

  /** A group that stops and starts again has in use what it had. */
  lemma StopStartRestores(s: Ioc, i: nat)
    requires Good(s) && 0 < i < |s.groups| && s.groups[i].listed
    ensures IsTree(Deactivate(s, i).groups) && |Deactivate(s, i).groups| == |s.groups|
    ensures var (t, ok) := Activate(Deactivate(s, i), i);
            && ok && |t.groups| == |s.groups| && t.groups[i].listed
            && t.groups[i].active == s.groups[i].active && t.groups[i].inuse == s.groups[i].inuse
  {
    var gs, g := s.groups, s.groups[i];
    assert Bounded(g) && Settled(g);
    ActiveMeansClear(gs, i);
    var gs1 := gs[i := g.(lastInuse := g.inuse)];
    WalkShape(gs1, i, 0, 0);
    var u := Deactivate(s, i);
    SameAncestors(gs, u.groups, i);
    var gs2 := u.groups[i := u.groups[i].(hwGen := u.gen - 1, listed := true)];
    WalkShape(gs2, i, g.weight, g.inuse);
  }

  /** A group that starts for the first time has all of its weight in use. */
  lemma FirstStartUsesAll(s: Ioc, i: nat)
    requires Good(s) && 0 < i < |s.groups| && !s.groups[i].listed && s.groups[i].lastInuse == 0
    ensures var (t, ok) := Activate(s, i);
            ok ==> |t.groups| == |s.groups| && t.groups[i].inuse == t.groups[i].active == s.groups[i].weight
  {
    var g := s.groups[i];
    WalkShape(s.groups[i := g.(hwGen := s.gen - 1, listed := true)], i, g.weight, g.weight);
  }

  /** A donation leaves in use what was asked for, but never more than the weight. */
  lemma DonateLeaves(s: Ioc, i: nat, inuse: int)
    requires Good(s) && 0 < i < |s.groups| && s.groups[i].listed
    ensures var t := Donate(s, i, inuse);
            && |t.groups| == |s.groups| && t.groups[i].active == s.groups[i].active == s.groups[i].weight
            && t.groups[i].inuse <= inuse && t.groups[i].inuse <= s.groups[i].weight
            && (t.groups[i].inuse == inuse || t.groups[i].inuse == s.groups[i].weight)
  {
    assert Settled(s.groups[i]);
    WalkShape(s.groups, i, s.groups[i].weight, Min(s.groups[i].weight, inuse));
  }

  /** A new weight keeps the part in use of a group, rounded up. */
  lemma ReweighScales(s: Ioc, i: nat, weight: int)
    requires Good(s) && 0 < i < |s.groups| && 1 <= weight && 1 <= s.groups[i].weight
    requires 0 < s.groups[i].active && weight != s.groups[i].weight
    ensures |Reweigh(s, i, weight).groups| == |s.groups|
    ensures var g, h := s.groups[i], Reweigh(s, i, weight).groups[i];
            && h.weight == h.active == weight
            && g.inuse * weight <= h.inuse * g.weight < g.inuse * weight + g.weight
  {
    var g := s.groups[i];
    assert Bounded(g) && Settled(g);
    var u := CeilDiv(g.inuse * weight, g.weight);
    MulMonotone(g.inuse, g.weight, weight);
    CeilAtMost(g.inuse * weight, g.weight, weight);
    CeilAtMost(g.inuse * weight, g.weight, u);
    CeilAtMost(g.inuse * weight, g.weight, u - 1);
    assert (u - 1) * g.weight == u * g.weight - g.weight;
    WalkShape(s.groups, i, weight, u);
    assert Min(weight, u) == u;
    hide CeilDiv;
  }

  // ---------- the shares of all leaves together ----------

  /** What the children of `p` among the first `n` groups get together. */
  function ChildShares(gs: seq<Group>, p: nat, n: nat, k: Kind): int
    requires IsTree(gs) && n <= |gs|
  {
    if n == 0 then 0
    else
      ChildShares(gs, p, n - 1, k) +
      if 0 < n - 1 && gs[n - 1].parent == p && 0 < gs[n - 1].active then Share(gs, n - 1, k) else 0
  }

  lemma ShareBounds(gs: seq<Group>, i: nat, k: Kind)
    requires Inv(gs) && i < |gs|
    ensures 0 <= Share(gs, i, k)
    ensures 0 < i && 0 < gs[i].active ==>
              var p := gs[i].parent;
              && 0 < gs[p].Sum(k) && gs[i].Of(k) <= gs[p].Sum(k)
              && Share(gs, i, k) == Share(gs, p, k) * gs[i].Of(k) / gs[p].Sum(k)
    decreases i
  {
    if i > 0 {
      var p := gs[i].parent;
      assert Bounded(gs[i]);
      ShareBounds(gs, p, k);
      PartBelowSum(gs, p, |gs|, k, i);
      SumsOrdered(gs, p, |gs|);
      PartBelowSum(gs, p, |gs|, Active, i);
      assert gs[p].Sum(k) == ChildSum(gs, p, |gs|, k) && gs[p].Sum(Active) == ChildSum(gs, p, |gs|, Active);
      assert gs[p].Sum(InUse) == ChildSum(gs, p, |gs|, InUse);
      var h, w, d := Share(gs, p, k), gs[i].Of(k), gs[p].Sum(k);
      if gs[p].activeSum != 0 && gs[p].inuseSum != 0 {
        MulNonNegative(h, w);
        FloorBelow(h * w, d, 0);
      }
    }
  }

  /** Rounding down never hands the children more than the parent has. */
  lemma {:induction false} ChildSharesScaled(gs: seq<Group>, p: nat, n: nat, k: Kind)
    requires Inv(gs) && p < |gs| && n <= |gs|
    ensures ChildShares(gs, p, n, k) * gs[p].Sum(k) <= Share(gs, p, k) * ChildSum(gs, p, n, k)
  {
    if n > 0 {
      ChildSharesScaled(gs, p, n - 1, k);
      var i := n - 1;
      var h, d := Share(gs, p, k), gs[p].Sum(k);
      assert 0 < i ==> Bounded(gs[i]);
      if 0 < i && gs[i].parent == p {
        var w := gs[i].Of(k);
        if 0 < gs[i].active {
          ShareBounds(gs, i, k);
          DivMod(h * w, d);
          ScaledStep(ChildShares(gs, p, i, k), h * w / d, d, h, ChildSum(gs, p, i, k), w);
        } else {
          assert w == 0;
        }
      }
    }
  }

  lemma ScaledStep(c: int, q: int, d: int, h: int, sum: int, w: int)
    requires c * d <= h * sum && q * d <= h * w
    ensures (c + q) * d <= h * (sum + w)
  {
    assert (c + q) * d == c * d + q * d;
    assert h * (sum + w) == h * sum + h * w;
  }

  lemma {:induction false} NoChildShares(gs: seq<Group>, p: nat, n: nat, k: Kind)
    requires Inv(gs) && p < |gs| && n <= |gs| && gs[p].activeSum == 0
    ensures ChildShares(gs, p, n, k) == 0
  {
    if n > 0 {
      NoChildShares(gs, p, n - 1, k);
      PartBelowSum(gs, p, |gs|, Active, n - 1);
      assert gs[p].Sum(Active) == ChildSum(gs, p, |gs|, Active);
    }
  }

  lemma {:induction false} ChildSharesNonNegative(gs: seq<Group>, p: nat, n: nat, k: Kind)
    requires Inv(gs) && n <= |gs|
    ensures 0 <= ChildShares(gs, p, n, k)
  {
    if n > 0 {
      ChildSharesNonNegative(gs, p, n - 1, k);
      ShareBounds(gs, n - 1, k);
    }
  }

  /** The children of a group get at most what it has. */
  lemma ChildrenShareParent(gs: seq<Group>, p: nat, k: Kind)
    requires Inv(gs) && p < |gs|
    ensures ChildShares(gs, p, |gs|, k) <= Share(gs, p, k)
  {
    ShareBounds(gs, p, k);
    SumsOrdered(gs, p, |gs|);
    assert gs[p].Sum(Active) == ChildSum(gs, p, |gs|, Active) && gs[p].Sum(InUse) == ChildSum(gs, p, |gs|, InUse);
    var c, h, d := ChildShares(gs, p, |gs|, k), Share(gs, p, k), gs[p].Sum(k);
    if gs[p].activeSum == 0 {
      NoChildShares(gs, p, |gs|, k);
    } else {
      ChildSharesScaled(gs, p, |gs|, k);
      MulCancel(c, h, d);
    }
  }

  // ---------- rounding loses less than one unit for each leaf ----------

  /** How many children of `p` among the first `n` groups are active. */
  function ActiveChildren(gs: seq<Group>, p: nat, n: nat): nat
    requires n <= |gs|
  {
    if n == 0 then 0
    else ActiveChildren(gs, p, n - 1) + if 0 < n - 1 && gs[n - 1].parent == p && 0 < gs[n - 1].active then 1 else 0
  }

  /** Each active child loses less than one unit. */
  lemma {:induction false} ChildSharesCover(gs: seq<Group>, p: nat, n: nat, k: Kind)
    requires Inv(gs) && p < |gs| && n <= |gs|
    ensures Share(gs, p, k) * ChildSum(gs, p, n, k) <=
            ChildShares(gs, p, n, k) * gs[p].Sum(k) + ActiveChildren(gs, p, n) * (gs[p].Sum(k) - 1)
  {
    if n > 0 {
      ChildSharesCover(gs, p, n - 1, k);
      var i := n - 1;
      var h, d := Share(gs, p, k), gs[p].Sum(k);
      assert 0 < i ==> Bounded(gs[i]);
      if 0 < i && gs[i].parent == p {
        var w := gs[i].Of(k);
        if 0 < gs[i].active {
          ShareBounds(gs, i, k);
          DivMod(h * w, d);
          CoverStep(ChildShares(gs, p, i, k), h * w / d, d, h, ChildSum(gs, p, i, k), w, ActiveChildren(gs, p, i));
        } else {
          assert w == 0;
        }
      }
    }
  }

  lemma CoverStep(c: int, q: int, d: int, h: int, sum: int, w: int, n: int)
    requires h * sum <= c * d + n * (d - 1) && h * w <= q * d + (d - 1)
    ensures h * (sum + w) <= (c + q) * d + (n + 1) * (d - 1)
  {
    assert (c + q) * d == c * d + q * d;
    assert h * (sum + w) == h * sum + h * w;
    assert (n + 1) * (d - 1) == n * (d - 1) + (d - 1);
  }

  lemma {:induction false} SomeActiveChild(gs: seq<Group>, p: nat, n: nat)
    requires Inv(gs) && p < |gs| && n <= |gs| && 0 < ChildSum(gs, p, n, Active)
    ensures 0 < ActiveChildren(gs, p, n)
  {
    assert 0 < n - 1 ==> Bounded(gs[n - 1]);
    if ChildSum(gs, p, n - 1, Active) > 0 {
      SomeActiveChild(gs, p, n - 1);
    }
  }

  /** The active children of a group get together more than it has less their number. */
  lemma ChildrenCoverParent(gs: seq<Group>, p: nat, k: Kind)
    requires Inv(gs) && p < |gs| && 0 < gs[p].activeSum
    ensures Share(gs, p, k) < ChildShares(gs, p, |gs|, k) + ActiveChildren(gs, p, |gs|)
  {
    SumsOrdered(gs, p, |gs|);
    assert gs[p].Sum(Active) == ChildSum(gs, p, |gs|, Active) && gs[p].Sum(InUse) == ChildSum(gs, p, |gs|, InUse);
    SomeActiveChild(gs, p, |gs|);
    ChildSharesCover(gs, p, |gs|, k);
    var c, h, d, n := ChildShares(gs, p, |gs|, k), Share(gs, p, k), gs[p].Sum(k), ActiveChildren(gs, p, |gs|);
    hide Inv, Share, ChildShares, ChildSum;
    LostBelow(c, h, d, n);
  }

  lemma LostBelow(c: int, h: int, d: int, n: int)
    requires 0 < d && 0 < n && h * d <= c * d + n * (d - 1)
    ensures h < c + n
  {
    assert (c + n) * d == c * d + n * d && n * (d - 1) == n * d - n;
    if c + n <= h {
      MulMonotone(c + n, h, d);
    }
  }

  // ---------- leaves ----------

  /** What a leaf has, and `pad` more. */
  function Own(gs: seq<Group>, i: nat, k: Kind, pad: nat): int
    requires IsTree(gs) && i < |gs|
  {
    if gs[i].listed then Share(gs, i, k) + pad else 0
  }

  /** The same, of all leaves below `i` (and of `i` itself) along children numbered from `n` on. */
  function Below(gs: seq<Group>, i: nat, n: nat, k: Kind, pad: nat): int
    requires IsTree(gs) && i < n <= |gs|
    decreases |gs| - n
  {
    if n == |gs| then Own(gs, i, k, pad)
    else Below(gs, i, n + 1, k, pad) + if gs[n].parent == i then Below(gs, n, n + 1, k, pad) else 0
  }

  function Entitled(gs: seq<Group>, i: nat, k: Kind): int
    requires IsTree(gs) && i < |gs|
  {
    if i == 0 || 0 < gs[i].active then Share(gs, i, k) else 0
  }

  lemma {:induction false} BelowBounded(gs: seq<Group>, i: nat, n: nat, k: Kind)
    requires Inv(gs) && i < n <= |gs|
    ensures Below(gs, i, n, k, 0) + ChildShares(gs, i, n, k) <= Own(gs, i, k, 0) + ChildShares(gs, i, |gs|, k)
    decreases |gs| - n, 0
  {
    if n < |gs| {
      hide Inv, Share;
      BelowBounded(gs, i, n + 1, k);
      if gs[n].parent == i {
        LeavesBelow(gs, n, k);
      }
    }
  }

  /** The leaves below a group share out at most what the group has. */
  lemma {:induction false} LeavesBelow(gs: seq<Group>, i: nat, k: Kind)
    requires Inv(gs) && i < |gs|
    ensures Below(gs, i, i + 1, k, 0) <= Entitled(gs, i, k)
    decreases |gs| - i - 1, 1
  {
    BelowBounded(gs, i, i + 1, k);
    ChildSharesNonNegative(gs, i, i + 1, k);
    ChildrenShareParent(gs, i, k);
    assert 0 < i ==> Bounded(gs[i]) && Settled(gs[i]);
    if gs[i].listed || (0 < i && gs[i].active == 0) {
      SumsOrdered(gs, i, |gs|);
      assert gs[i].Sum(Active) == ChildSum(gs, i, |gs|, Active);
      NoChildShares(gs, i, |gs|, k);
    }
  }

  lemma {:induction false} BelowCovers(gs: seq<Group>, i: nat, n: nat, k: Kind)
    requires Inv(gs) && i < n <= |gs|
    ensures Own(gs, i, k, 1) + ChildShares(gs, i, |gs|, k) + ActiveChildren(gs, i, |gs|) <=
            Below(gs, i, n, k, 1) + ChildShares(gs, i, n, k) + ActiveChildren(gs, i, n)
    decreases |gs| - n, 0
  {
    if n < |gs| {
      hide Inv, Share;
      BelowCovers(gs, i, n + 1, k);
      if gs[n].parent == i {
        LeavesCover(gs, n, k);
      }
    }
  }

  lemma {:induction false} NoEarlyChildren(gs: seq<Group>, p: nat, n: nat, k: Kind)
    requires IsTree(gs) && n <= p + 1 && n <= |gs|
    ensures ChildShares(gs, p, n, k) == 0 && ActiveChildren(gs, p, n) == 0
  {
    if n > 0 {
      NoEarlyChildren(gs, p, n - 1, k);
    }
  }

  /** The leaves below a group in use lose less than one unit each of what the group has. */
  lemma {:induction false} LeavesCover(gs: seq<Group>, i: nat, k: Kind)
    requires Inv(gs) && i < |gs|
    ensures 0 <= Below(gs, i, i + 1, k, 1)
    ensures 0 < gs[i].activeSum || (0 < i && 0 < gs[i].active) ==> Share(gs, i, k) < Below(gs, i, i + 1, k, 1)
    decreases |gs| - i - 1, 1
  {
    BelowCovers(gs, i, i + 1, k);
    NoEarlyChildren(gs, i, i + 1, k);
    ShareBounds(gs, i, k);
    ChildSharesNonNegative(gs, i, |gs|, k);
    assert 0 < i ==> Bounded(gs[i]) && Settled(gs[i]);
    if 0 < gs[i].activeSum {
      ChildrenCoverParent(gs, i, k);
    }
  }

  // ---------- and of the whole hierarchy ----------

  /** The shares of all listed groups among the first `n`. */
  function LeafTotal(gs: seq<Group>, n: nat, k: Kind): int
    requires IsTree(gs) && n <= |gs|
  {
    if n == 0 then 0 else LeafTotal(gs, n - 1, k) + Own(gs, n - 1, k, 0)
  }

  /** How many of the first `n` groups are listed. */
  function ListedCount(gs: seq<Group>, n: nat): nat
    requires n <= |gs|
  {
    if n == 0 then 0 else ListedCount(gs, n - 1) + if gs[n - 1].listed then 1 else 0
  }

  function RowTotal(gs: seq<Group>, m: nat, n: nat, k: Kind, pad: nat): int
    requires IsTree(gs) && m <= n <= |gs|
  {
    if m == 0 then 0 else RowTotal(gs, m - 1, n, k, pad) + Below(gs, m - 1, n, k, pad)
  }

  lemma {:induction false} RowStep(gs: seq<Group>, m: nat, n: nat, k: Kind, pad: nat)
    requires IsTree(gs) && m <= n < |gs|
    ensures RowTotal(gs, m, n, k, pad) ==
            RowTotal(gs, m, n + 1, k, pad) + if gs[n].parent < m then Below(gs, n, n + 1, k, pad) else 0
  {
    if m > 0 {
      RowStep(gs, m - 1, n, k, pad);
    }
  }

  lemma {:induction false} RowLast(gs: seq<Group>, m: nat, k: Kind, pad: nat)
    requires IsTree(gs) && m <= |gs|
    ensures RowTotal(gs, m, |gs|, k, pad) == LeafTotal(gs, m, k) + pad * ListedCount(gs, m)
  {
    if m > 0 {
      RowLast(gs, m - 1, k, pad);
      var c := ListedCount(gs, m - 1);
      assert pad * (c + 1) == pad * c + pad;
    }
  }

  lemma {:induction false} RowsEqual(gs: seq<Group>, n: nat, k: Kind, pad: nat)
    requires IsTree(gs) && 0 < n <= |gs|
    ensures RowTotal(gs, n, n, k, pad) == LeafTotal(gs, |gs|, k) + pad * ListedCount(gs, |gs|)
    decreases |gs| - n
  {
    if n == |gs| {
      RowLast(gs, n, k, pad);
    } else {
      RowsEqual(gs, n + 1, k, pad);
      RowStep(gs, n, n, k, pad);
    }
  }

  /** Over any reachable hierarchy the shares of all groups that issue IO add up to at most the whole,
   * for the configured and for the in-use weights. */
  lemma SharesFitTheWhole(s: Ioc, k: Kind)
    requires Reachable(s)
    ensures IsTree(s.groups) && LeafTotal(s.groups, |s.groups|, k) <= WHOLE
  {
    ReachableGood(s);
    var gs := s.groups;
    RowsEqual(gs, 1, k, 0);
    assert RowTotal(gs, 1, 1, k, 0) == Below(gs, 0, 1, k, 0);
    LeavesBelow(gs, 0, k);
  }

  /** Everything above an active group is in use. */
  lemma {:induction false} RootInUse(gs: seq<Group>, i: nat)
    requires Inv(gs) && 0 < i < |gs| && 0 < gs[i].active
    ensures 0 < gs[0].activeSum
    decreases i
  {
    var p := gs[i].parent;
    PartBelowSum(gs, p, |gs|, Active, i);
    assert gs[p].Sum(Active) == ChildSum(gs, p, |gs|, Active);
    if p > 0 {
      assert Settled(gs[p]) && Bounded(gs[p]);
      RootInUse(gs, p);
    }
  }

  /** And they leave nothing over: all levels of rounding together lose less than one unit for each group
   * that issues IO. */
  lemma SharesFillTheWhole(s: Ioc, k: Kind, i: nat)
    requires Reachable(s) && 0 < i < |s.groups| && s.groups[i].listed
    ensures IsTree(s.groups)
    ensures 0x1_0000 < LeafTotal(s.groups, |s.groups|, k) + ListedCount(s.groups, |s.groups|)
  {
    ReachableGood(s);
    var gs := s.groups;
    assert Bounded(gs[i]) && Settled(gs[i]);
    RootInUse(gs, i);
    RowsEqual(gs, 1, k, 1);
    assert RowTotal(gs, 1, 1, k, 1) == Below(gs, 0, 1, k, 1);
    LeavesCover(gs, 0, k);
  }

  lemma {:induction false} OnlyLeaf(gs: seq<Group>, n: nat, k: Kind, i: nat)
    requires IsTree(gs) && i < |gs| && gs[i].listed && n <= |gs|
    requires forall j | 0 <= j < |gs| && j != i :: !gs[j].listed
    ensures LeafTotal(gs, n, k) == (if i < n then Share(gs, i, k) else 0)
    ensures ListedCount(gs, n) == if i < n then 1 else 0
  {
    if n > 0 {
      OnlyLeaf(gs, n - 1, k, i);
    }
  }

  /** A group that alone issues IO has all of the device, however deep it lies. */
  lemma SoleGroupHasAll(s: Ioc, k: Kind, i: nat)
    requires Reachable(s) && 0 < i < |s.groups| && s.groups[i].listed
    requires forall j | 0 <= j < |s.groups| && j != i :: !s.groups[j].listed
    ensures IsTree(s.groups) && Share(s.groups, i, k) == 0x1_0000
  {
    SharesFitTheWhole(s, k);
    SharesFillTheWhole(s, k, i);
    OnlyLeaf(s.groups, |s.groups|, k, i);
  }
}
