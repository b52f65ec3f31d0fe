/** The weight hierarchy of the IO cost controller: groups, child sums, propagation with early exit
 * and flattened shares. */
module IoCostModel {
  import opened Arith

  const WHOLE: int := 0x1_0000   // HWEIGHT_WHOLE

  /** Which of the two weights: the configured share, or the share in use after donations. */
  datatype Kind = Active | InUse

  /** One group. Group 0 is the root; every other group comes after its parent. */
  datatype Group = Group(parent: nat, weight: int, active: int, inuse: int, lastInuse: int,
                         activeSum: int, inuseSum: int, listed: bool,
                         hwActive: int, hwInuse: int, hwGen: int) {
    function Of(k: Kind): int { if k.Active? then active else inuse }
    function Sum(k: Kind): int { if k.Active? then activeSum else inuseSum }
    function Hw(k: Kind): int { if k.Active? then hwActive else hwInuse }
  }

  datatype Ioc = Ioc(groups: seq<Group>, updated: bool, gen: int)

  predicate IsTree(gs: seq<Group>) {
    gs != [] && forall i | 0 < i < |gs| :: gs[i].parent < i
  }

  function CeilDiv(a: int, b: int): int
    requires 0 < b
  {
    (a + b - 1) / b
  }

  // ---------- propagation ----------

  /** Set group `i`'s weights and correct its parent's sums. */
  function Shift(gs: seq<Group>, i: nat, active: int, inuse: int): seq<Group>
    requires IsTree(gs) && 0 < i < |gs|
  {
    var p := gs[i].parent;
    var parent := gs[p].(activeSum := gs[p].activeSum + (active - gs[i].active),
                         inuseSum := gs[p].inuseSum + (inuse - gs[i].inuse));
    gs[p := parent][i := gs[i].(active := active, inuse := inuse)]
  }

  /** What a group's own weights should be, given its children: all of its weight while some child is
   * active, in use in the ratio of the children's sums, rounded up. */
  function Derived(g: Group): (r: (int, int)) {
    if g.activeSum > 0 then (g.weight, CeilDiv(g.weight * g.inuseSum, g.activeSum)) else (0, 0)
  }

  /** Walk up from group `i`, and stop as soon as a parent's own weights come out unchanged. */
  function Walk(gs: seq<Group>, i: nat, active: int, inuse: int): seq<Group>
    requires IsTree(gs) && i < |gs|
    decreases i
  {
    if i == 0 then gs
    else
      var gs1 := Shift(gs, i, active, inuse);
      var p := gs[i].parent;
      var (a, u) := Derived(gs1[p]);
      assert IsTree(gs1);
      if a == gs1[p].active && u == gs1[p].inuse then gs1 else Walk(gs1, p, a, u)
  }

  /** Change group `i`'s weights; the change is not committed yet. */
  function Propagate(s: Ioc, i: nat, active: int, inuse: int): Ioc
    requires IsTree(s.groups) && i < |s.groups|
  {
    s.(groups := Walk(s.groups, i, active, Min(active, inuse)), updated := true)
  }

  /** Publish pending changes by moving to a new generation. */
  function Commit(s: Ioc): Ioc {
    if s.updated then s.(gen := s.gen + 1, updated := false) else s
  }

  // ---------- shares ----------

  /** A group's share of the device as a fraction of `Whole`: from the root down, each level divides
   * by its sum, rounding down. */
  function Share(gs: seq<Group>, i: nat, k: Kind): int
    requires IsTree(gs) && i < |gs|
    decreases i
  {
    if i == 0 then WHOLE
    else
      var g, p := gs[i], gs[gs[i].parent];
      var h := Share(gs, g.parent, k);
      if p.activeSum == 0 || p.inuseSum == 0 || Max(g.Of(k), p.Sum(k)) <= 0 then h
      else h * g.Of(k) / Max(g.Of(k), p.Sum(k))
  }

  /** The share as handed out: at least 1. */
  function Fresh(gs: seq<Group>, i: nat, k: Kind): int
    requires IsTree(gs) && i < |gs|
  {
    Max(Share(gs, i, k), 1)
  }

  /** Refresh the cached shares of group `i` if they are of an older generation. */
  function Refresh(s: Ioc, i: nat): Ioc
    requires IsTree(s.groups) && i < |s.groups|
  {
    var g := s.groups[i];
    if g.hwGen == s.gen then s
    else
      s.(groups := s.groups[i := g.(hwActive := Fresh(s.groups, i, Active),
                                    hwInuse := Fresh(s.groups, i, InUse), hwGen := s.gen)])
  }

  // ---------- operations ----------

  /** Some ancestor below the root is itself issuing IO. */
  predicate AncestorListed(gs: seq<Group>, i: nat)
    requires IsTree(gs) && i < |gs|
    decreases i
  {
    i != 0 && gs[i].parent != 0 && (gs[gs[i].parent].listed || AncestorListed(gs, gs[i].parent))
  }

  /** Start using group `i`, unless that would break the rule that only leaves issue IO. */
  function Activate(s: Ioc, i: nat): (r: (Ioc, bool))
    requires IsTree(s.groups) && 0 < i < |s.groups|
  {
    var g := s.groups[i];
    if g.listed then (s, true)
    else if g.activeSum != 0 || AncestorListed(s.groups, i) then (s, false)
    else
      var s1 := s.(groups := s.groups[i := g.(hwGen := s.gen - 1, listed := true)]);
      assert IsTree(s1.groups);
      (Commit(Propagate(s1, i, g.weight, if g.lastInuse != 0 then g.lastInuse else g.weight)), true)
  }

  /** An idle group leaves; it remembers what it had in use. */
  function Deactivate(s: Ioc, i: nat): Ioc
    requires IsTree(s.groups) && 0 < i < |s.groups|
  {
    var gs := s.groups[i := s.groups[i].(lastInuse := s.groups[i].inuse)];
    assert IsTree(gs);
    var t := Propagate(s.(groups := gs), i, 0, 0);
    WalkShape(gs, i, 0, 0);
    t.(groups := t.groups[i := t.groups[i].(listed := false)])
  }

  /** A listed group gives away or takes back part of its weight. */
  function Donate(s: Ioc, i: nat, inuse: int): Ioc
    requires IsTree(s.groups) && 0 < i < |s.groups|
  {
    Propagate(s, i, s.groups[i].weight, inuse)
  }

  /** The configured weight of a group changes. */
  function Reweigh(s: Ioc, i: nat, weight: int): Ioc
    requires IsTree(s.groups) && 0 < i < |s.groups| && 0 < s.groups[i].weight
  {
    var g := s.groups[i];
    var t := if weight != g.weight && g.active != 0
             then Commit(Propagate(s, i, weight, CeilDiv(g.inuse * weight, g.weight))) else s;
    WalkShape(s.groups, i, weight, Min(weight, CeilDiv(g.inuse * weight, g.weight)));
    t.(groups := t.groups[i := t.groups[i].(weight := weight)])
  }

  /** What walking never touches. */
  ghost predicate SameShape(a: seq<Group>, b: seq<Group>) {
    && |a| == |b|
    && forall j | 0 <= j < |a| ::
         b[j] == a[j].(active := b[j].active, inuse := b[j].inuse,
                       activeSum := b[j].activeSum, inuseSum := b[j].inuseSum)
  }

  lemma {:induction false} WalkShape(gs: seq<Group>, i: nat, active: int, inuse: int)
    requires IsTree(gs) && i < |gs|
    ensures SameShape(gs, Walk(gs, i, active, inuse)) && IsTree(Walk(gs, i, active, inuse))
    ensures forall j | i < j < |gs| :: Walk(gs, i, active, inuse)[j] == gs[j]
    ensures 0 < i ==> Walk(gs, i, active, inuse)[i] == gs[i].(active := active, inuse := inuse)
    decreases i
  {
    if i > 0 {
      var gs1 := Shift(gs, i, active, inuse);
      var p := gs[i].parent;
      var (a, u) := Derived(gs1[p]);
      WalkShape(gs1, p, a, u);
    }
  }
}
