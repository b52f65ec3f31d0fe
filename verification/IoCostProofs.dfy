/** What every operation on the weight hierarchy keeps, over whole runs: exact child sums, bounded
 * weights, the leaf-only rule and a cache that agrees with recomputation. */
module IoCostProofs {
  import opened Arith
  import opened IoCostModel

  // ---------- sums over children ----------

  function Part(gs: seq<Group>, p: nat, i: nat, k: Kind): int
    requires i < |gs|
  {
    if 0 < i && gs[i].parent == p then gs[i].Of(k) else 0
  }

  /** The weights of the children of `p` among the first `n` groups. */
  function ChildSum(gs: seq<Group>, p: nat, n: nat, k: Kind): int
    requires n <= |gs|
  {
    if n == 0 then 0 else ChildSum(gs, p, n - 1, k) + Part(gs, p, n - 1, k)
  }

  lemma {:induction false} ChildSumUpdate(gs: seq<Group>, p: nat, n: nat, k: Kind, i: nat, x: Group)
    requires n <= |gs| && i < |gs| && x.parent == gs[i].parent
    ensures ChildSum(gs[i := x], p, n, k) ==
            ChildSum(gs, p, n, k) + if i < n && 0 < i && x.parent == p then x.Of(k) - gs[i].Of(k) else 0
  {
    if n > 0 {
      ChildSumUpdate(gs, p, n - 1, k, i, x);
    }
  }

  // ---------- the invariant ----------

  predicate Bounded(g: Group) {
    && 1 <= g.weight
    && 0 <= g.inuse <= g.active
    && (0 < g.active ==> 0 < g.inuse)
    && (g.listed ==> g.activeSum == 0)
    && 0 <= g.lastInuse
  }

  ghost predicate Sums(gs: seq<Group>) {
    forall p: nat, k: Kind | p < |gs| :: gs[p].Sum(k) == ChildSum(gs, p, |gs|, k)
  }

  /** The tree, its exact sums and the bounds of every group. */
  ghost predicate Base(gs: seq<Group>) {
    && IsTree(gs) && Sums(gs)
    && (forall i | 0 < i < |gs| :: Bounded(gs[i]))
    && !gs[0].listed
  }

  /** A group counts with all of its weight while it is in use itself or through a child. */
  predicate Settled(g: Group) {
    g.active == if g.listed || 0 < g.activeSum then g.weight else 0
  }

  ghost predicate AllSettled(gs: seq<Group>, except: set<int>) {
    forall i | 0 < i < |gs| && i !in except :: Settled(gs[i])
  }

  ghost predicate Inv(gs: seq<Group>) {
    Base(gs) && AllSettled(gs, {})
  }

  lemma {:induction false} SumsOrdered(gs: seq<Group>, p: nat, n: nat)
    requires n <= |gs| && forall i | 0 < i < |gs| :: Bounded(gs[i])
    ensures 0 <= ChildSum(gs, p, n, InUse) <= ChildSum(gs, p, n, Active)
    ensures 0 < ChildSum(gs, p, n, Active) ==> 0 < ChildSum(gs, p, n, InUse)
  {
    if n > 0 {
      SumsOrdered(gs, p, n - 1);
      assert 0 < n - 1 ==> Bounded(gs[n - 1]);
    }
  }

  lemma CeilBounds(w: int, u: int, a: int)
    requires 1 <= w && 0 < u <= a
    ensures 1 <= CeilDiv(w * u, a) <= w
  {
    MulMonotone(u, a, w);
    CeilAtMost(w * u, a, w);
    CeilAtMost(w * u, a, 0);
    MulMonotone(1, u, w);
  }

  lemma DerivedBounds(g: Group)
    requires 1 <= g.weight && 0 <= g.inuseSum <= g.activeSum && (0 < g.activeSum ==> 0 < g.inuseSum)
    ensures var (a, u) := Derived(g);
            && 0 <= u <= a && (0 < a ==> 0 < u) && a == (if 0 < g.activeSum then g.weight else 0)
  {
    if 0 < g.activeSum {
      CeilBounds(g.weight, g.inuseSum, g.activeSum);
    }
  }

  // ---------- one level ----------

  lemma ShiftSums(gs: seq<Group>, i: nat, active: int, inuse: int)
    requires IsTree(gs) && 0 < i < |gs| && Sums(gs)
    ensures Sums(Shift(gs, i, active, inuse))
  {
    var p := gs[i].parent;
    var gs1 := Shift(gs, i, active, inuse);
    var x := gs[i].(active := active, inuse := inuse);
    var mid := gs[p := gs1[p]];
    assert gs1 == mid[i := x];
    forall q: nat, k: Kind | q < |gs1| ensures gs1[q].Sum(k) == ChildSum(gs1, q, |gs1|, k) {
      ChildSumUpdate(gs, q, |gs|, k, p, gs1[p]);
      ChildSumUpdate(mid, q, |gs|, k, i, x);
      assert gs[q].Sum(k) == ChildSum(gs, q, |gs|, k);
    }
  }

  lemma ShiftKeeps(gs: seq<Group>, i: nat, active: int, inuse: int)
    requires Base(gs) && 0 < i < |gs| && !gs[gs[i].parent].listed
    requires 0 <= inuse <= active && (0 < active ==> 0 < inuse)
    ensures Base(Shift(gs, i, active, inuse))
  {
    ShiftSums(gs, i, active, inuse);
    var gs1 := Shift(gs, i, active, inuse);
    forall j | 0 < j < |gs1| ensures Bounded(gs1[j]) {
      assert Bounded(gs[j]);
    }
  }

  // ---------- the walk ----------

  lemma {:induction false} WalkKeeps(gs: seq<Group>, i: nat, active: int, inuse: int, first: nat)
    requires Base(gs) && i < |gs| && !AncestorListed(gs, i)
    requires 0 <= inuse <= active && (0 < active ==> 0 < inuse)
    requires AllSettled(gs, {first, i})
    requires i == first || active == if 0 < gs[i].activeSum then gs[i].weight else 0
    requires i != first ==> !gs[i].listed
    ensures Base(Walk(gs, i, active, inuse)) && AllSettled(Walk(gs, i, active, inuse), {first})
    decreases i
  {
    if i > 0 {
      var p := gs[i].parent;
      ShiftKeeps(gs, i, active, inuse);
      var gs1 := Shift(gs, i, active, inuse);
      SumsOrdered(gs1, p, |gs1|);
      assert gs1[p].Sum(Active) == ChildSum(gs1, p, |gs1|, Active);
      assert gs1[p].Sum(InUse) == ChildSum(gs1, p, |gs1|, InUse);
      var (a, u) := Derived(gs1[p]);
      if p > 0 {
        assert Bounded(gs1[p]);
        DerivedBounds(gs1[p]);
        assert AllSettled(gs1, {first, p});
        SameListing(gs, gs1, p);
        if a == gs1[p].active && u == gs1[p].inuse {
          assert Settled(gs1[p]);
        } else {
          WalkKeeps(gs1, p, a, u, first);
        }
      }
    }
  }

  lemma {:induction false} SameListing(a: seq<Group>, b: seq<Group>, i: nat)
    requires IsTree(a) && IsTree(b) && |a| == |b| && i < |a|
    requires forall j | 0 <= j < |a| :: a[j].listed == b[j].listed && a[j].parent == b[j].parent
    ensures AncestorListed(a, i) == AncestorListed(b, i)
    decreases i
  {
    if i > 0 {
      SameListing(a, b, a[i].parent);
    }
  }

  // ---------- facts about settled hierarchies ----------

  lemma {:induction false} PartBelowSum(gs: seq<Group>, p: nat, n: nat, k: Kind, i: nat)
    requires i < n <= |gs| && forall j | 0 < j < |gs| :: Bounded(gs[j])
    ensures Part(gs, p, i, k) <= ChildSum(gs, p, n, k) && 0 <= ChildSum(gs, p, n, k)
    decreases n
  {
    assert 0 < n - 1 ==> Bounded(gs[n - 1]);
    if i < n - 1 {
      PartBelowSum(gs, p, n - 1, k, i);
    } else if n > 1 {
      PartBelowSum(gs, p, n - 1, k, 0);
    }
  }

  /** Above an active group nobody but the root may issue IO. */
  lemma {:induction false} ActiveMeansClear(gs: seq<Group>, i: nat)
    requires Inv(gs) && i < |gs| && (i == 0 || 0 < gs[i].active)
    ensures !AncestorListed(gs, i)
    decreases i
  {
    if i > 0 && gs[i].parent != 0 {
      var p := gs[i].parent;
      PartBelowSum(gs, p, |gs|, Active, i);
      assert gs[p].Sum(Active) == ChildSum(gs, p, |gs|, Active);
      assert Bounded(gs[p]) && Settled(gs[p]);
      ActiveMeansClear(gs, p);
    }
  }

  /** Two hierarchies that agree in everything sums and shares depend on. */
  ghost predicate SameWeights(a: seq<Group>, b: seq<Group>) {
    && |a| == |b|
    && forall j | 0 <= j < |a| ::
         && a[j].parent == b[j].parent && a[j].active == b[j].active && a[j].inuse == b[j].inuse
         && a[j].activeSum == b[j].activeSum && a[j].inuseSum == b[j].inuseSum
  }

  lemma {:induction false} SameChildSum(a: seq<Group>, b: seq<Group>, p: nat, n: nat, k: Kind)
    requires SameWeights(a, b) && n <= |a|
    ensures ChildSum(a, p, n, k) == ChildSum(b, p, n, k)
  {
    if n > 0 {
      SameChildSum(a, b, p, n - 1, k);
    }
  }

  lemma SameSums(a: seq<Group>, b: seq<Group>)
    requires SameWeights(a, b) && Sums(a)
    ensures Sums(b)
  {
    forall p: nat, k: Kind | p < |b| ensures b[p].Sum(k) == ChildSum(b, p, |b|, k) {
      SameChildSum(a, b, p, |a|, k);
      assert a[p].Sum(k) == ChildSum(a, p, |a|, k);
    }
  }

  lemma {:induction false} SameShare(a: seq<Group>, b: seq<Group>, i: nat, k: Kind)
    requires IsTree(a) && IsTree(b) && SameWeights(a, b) && i < |a|
    ensures Share(a, i, k) == Share(b, i, k)
    decreases i
  {
    if i > 0 {
      SameShare(a, b, a[i].parent, k);
    }
  }

  lemma {:induction false} SameAncestors(a: seq<Group>, b: seq<Group>, i: nat)
    requires IsTree(a) && IsTree(b) && |a| == |b| && i < |a|
    requires forall j | 0 <= j < |a| :: a[j].parent == b[j].parent && (j != i ==> a[j].listed == b[j].listed)
    ensures AncestorListed(a, i) == AncestorListed(b, i)
  {
    if i > 0 {
      AncestorsBelow(a, b, a[i].parent, i);
    }
  }

  lemma {:induction false} AncestorsBelow(a: seq<Group>, b: seq<Group>, i: nat, top: nat)
    requires IsTree(a) && IsTree(b) && |a| == |b| && i < top < |a|
    requires forall j | 0 <= j < |a| :: a[j].parent == b[j].parent && (j != top ==> a[j].listed == b[j].listed)
    ensures AncestorListed(a, i) == AncestorListed(b, i)
    decreases i
  {
    if i > 0 {
      AncestorsBelow(a, b, a[i].parent, top);
    }
  }

  // ---------- every operation keeps the hierarchy ----------

  lemma ActivateKeeps(s: Ioc, i: nat)
    requires Inv(s.groups) && 0 < i < |s.groups|
    ensures Inv(Activate(s, i).0.groups)
  {
    var gs, g := s.groups, s.groups[i];
    assert Bounded(g);
    if !g.listed && g.activeSum == 0 && !AncestorListed(gs, i) {
      var gs1 := gs[i := g.(hwGen := s.gen - 1, listed := true)];
      SameSums(gs, gs1);
      SameAncestors(gs, gs1, i);
      assert Base(gs1);
      var u := Min(g.weight, if g.lastInuse != 0 then g.lastInuse else g.weight);
      WalkKeeps(gs1, i, g.weight, u, i);
      WalkShape(gs1, i, g.weight, u);
    }
  }

  lemma DeactivateKeeps(s: Ioc, i: nat)
    requires Inv(s.groups) && 0 < i < |s.groups| && s.groups[i].listed
    ensures Inv(Deactivate(s, i).groups)
  {
    var gs, g := s.groups, s.groups[i];
    assert Bounded(g) && Settled(g);
    ActiveMeansClear(gs, i);
    var gs1 := gs[i := g.(lastInuse := g.inuse)];
    SameSums(gs, gs1);
    SameListing(gs, gs1, i);
    assert Base(gs1);
    WalkKeeps(gs1, i, 0, 0, i);
    WalkShape(gs1, i, 0, 0);
    var gs2 := Walk(gs1, i, 0, 0);
    var gs3 := gs2[i := gs2[i].(listed := false)];
    SameSums(gs2, gs3);
    assert Deactivate(s, i).groups == gs3;
  }

  lemma DonateKeeps(s: Ioc, i: nat, inuse: int)
    requires Inv(s.groups) && 0 < i < |s.groups| && s.groups[i].listed && 1 <= inuse
    ensures Inv(Donate(s, i, inuse).groups)
  {
    var gs, g := s.groups, s.groups[i];
    assert Bounded(g) && Settled(g);
    ActiveMeansClear(gs, i);
    WalkKeeps(gs, i, g.weight, Min(g.weight, inuse), i);
    WalkShape(gs, i, g.weight, Min(g.weight, inuse));
  }

  lemma ReweighKeeps(s: Ioc, i: nat, weight: int)
    requires Inv(s.groups) && 0 < i < |s.groups| && 1 <= weight && 1 <= s.groups[i].weight
    ensures Inv(Reweigh(s, i, weight).groups)
  {
    var gs, g := s.groups, s.groups[i];
    assert Bounded(g) && Settled(g);
    var gs1 := gs;
    if weight != g.weight && g.active != 0 {
      ActiveMeansClear(gs, i);
      var u := CeilDiv(g.inuse * weight, g.weight);
      MulMonotone(1, g.inuse, weight);
      CeilAtMost(g.inuse * weight, g.weight, 0);
      WalkKeeps(gs, i, weight, Min(weight, u), i);
      WalkShape(gs, i, weight, Min(weight, u));
      gs1 := Walk(gs, i, weight, Min(weight, u));
    }
    var gs2 := gs1[i := gs1[i].(weight := weight)];
    SameSums(gs1, gs2);
    assert Reweigh(s, i, weight).groups == gs2;
  }

  lemma RefreshKeeps(s: Ioc, i: nat)
    requires Inv(s.groups) && i < |s.groups|
    ensures Inv(Refresh(s, i).groups)
  {
    SameSums(s.groups, Refresh(s, i).groups);
  }
}
