/** The weight hierarchy as the kernel keeps it: fields of groups updated in place by loops along the
 * ancestors of a group. */
module IoCostController {
  import opened Arith
  import opened IoCostModel
  import opened IoCostProofs
  import opened IoCostTheorems

  /** A group's ancestors from the root down, the group last. */
  function Path(gs: seq<Group>, i: nat): (path: seq<nat>)
    requires IsTree(gs) && i < |gs|
    ensures path != [] && path[|path| - 1] == i && path[0] == 0
    ensures forall l | 0 < l < |path| :: 0 < path[l] <= i && gs[path[l]].parent == path[l - 1]
    decreases i
  {
    if i == 0 then [0] else Path(gs, gs[i].parent) + [i]
  }

  class Controller {
    var groups: seq<Group>
    var updated: bool
    var gen: int

    function State(): Ioc
      reads this
    {
      Ioc(groups, updated, gen)
    }

    constructor (initial: seq<Group>)
      requires Unused(Ioc(initial, false, 0))
      ensures State() == Ioc(initial, false, 0) && Good(State())
    {
      groups, updated, gen := initial, false, 0;
      UnusedGood(Ioc(initial, false, 0));
    }

    /** Set a group's weights and carry the change upwards, until a parent is not affected. */
    method PropagateActiveWeight(i: nat, active: int, inuse: int)
      requires IsTree(groups) && i < |groups|
      modifies this`groups, this`updated
      ensures State() == Propagate(old(State()), i, active, inuse)
    {
      ghost var goal := Walk(groups, i, active, Min(active, inuse));
      var child: nat := i;
      var a, u := active, Min(active, inuse);
      while child != 0
        invariant IsTree(groups) && child < |groups|
        invariant Walk(groups, child, a, u) == goal
        decreases child
      {
        var p := groups[child].parent;
        ghost var next := Shift(groups, child, a, u);
        groups := groups[p := groups[p].(activeSum := groups[p].activeSum + (a - groups[child].active),
                                         inuseSum := groups[p].inuseSum + (u - groups[child].inuse))];
        groups := groups[child := groups[child].(active := a, inuse := u)];
        assert groups == next;
        var parentActive, parentInuse := 0, 0;
        if groups[p].activeSum > 0 {
          parentActive := groups[p].weight;
          parentInuse := CeilDiv(parentActive * groups[p].inuseSum, groups[p].activeSum);
        }
        if parentActive == groups[p].active && parentInuse == groups[p].inuse {
          break;
        }
        child, a, u := p, parentActive, parentInuse;
      }
      updated := true;
    }

    /** Nothing is pending afterwards; a change that was makes every cached share out of date. */
    method CommitActiveWeights()
      modifies this`gen, this`updated
      ensures State() == Commit(old(State())) && !updated
      ensures old(Good(State())) ==> Good(State())
      ensures old(Good(State()) && updated) ==> forall i | 0 < i < |groups| && groups[i].listed :: groups[i].hwGen < gen
    {
      if Good(State()) {
        CommitCache(State());
        assert forall i: nat | 0 < i < |groups| && groups[i].listed :: CacheTrue(State(), i);
      }
      if updated {
        gen := gen + 1;
        updated := false;
      }
    }

    /** The shares of group `i`, from the cache if that is up to date. */
    method CurrentHweight(i: nat) returns (hwActive: int, hwInuse: int)
      requires IsTree(groups) && i < |groups|
      modifies this`groups
      ensures State() == Refresh(old(State()), i)
      ensures hwActive == groups[i].hwActive && hwInuse == groups[i].hwInuse
    {
      if groups[i].hwGen != gen {
        var path := Path(groups, i);
        var hwa, hwi := WHOLE, WHOLE;
        for lvl := 0 to |path| - 1
          invariant hwa == Share(groups, path[lvl], Active) && hwi == Share(groups, path[lvl], InUse)
        {
          var parent, child := groups[path[lvl]], groups[path[lvl + 1]];
          if parent.activeSum != 0 && parent.inuseSum != 0 {
            if Max(child.active, parent.activeSum) > 0 {
              hwa := hwa * child.active / Max(child.active, parent.activeSum);
            }
            if Max(child.inuse, parent.inuseSum) > 0 {
              hwi := hwi * child.inuse / Max(child.inuse, parent.inuseSum);
            }
          }
        }
        groups := groups[i := groups[i].(hwActive := Max(hwa, 1), hwInuse := Max(hwi, 1), hwGen := gen)];
      }
      hwActive, hwInuse := groups[i].hwActive, groups[i].hwInuse;
    }

    /** Is some ancestor of `i` below the root issuing IO itself? */
    method FindListedAncestor(i: nat) returns (found: bool)
      requires IsTree(groups) && i < |groups|
      ensures found == AncestorListed(groups, i)
    {
      var g: nat := i;
      while g != 0 && groups[g].parent != 0
        invariant g < |groups| && AncestorListed(groups, g) == AncestorListed(groups, i)
        decreases g
      {
        if groups[groups[g].parent].listed {
          return true;
        }
        g := groups[g].parent;
      }
      found := false;
    }

    method ActivateGroup(i: nat) returns (ok: bool)
      requires Good(State()) && 0 < i < |groups|
      modifies this
      ensures State() == Activate(old(State()), i).0 && ok == Activate(old(State()), i).1
      ensures Good(State())
    {
      ActivateGood(State(), i);
      if groups[i].listed {
        return true;
      }
      var above := FindListedAncestor(i);
      if groups[i].activeSum != 0 || above {
        return false;
      }
      groups := groups[i := groups[i].(hwGen := gen - 1)];
      groups := groups[i := groups[i].(listed := true)];
      assert groups == old(groups)[i := old(groups)[i].(hwGen := gen - 1, listed := true)];
      var inuse := if groups[i].lastInuse != 0 then groups[i].lastInuse else groups[i].weight;
      PropagateActiveWeight(i, groups[i].weight, inuse);
      CommitActiveWeights();
      ok := true;
    }

    /** An idle group is taken out by the period timer, which commits later. */
    method DeactivateGroup(i: nat)
      requires Good(State()) && 0 < i < |groups| && groups[i].listed
      modifies this
      ensures State() == Deactivate(old(State()), i)
      ensures Good(State())
    {
      DeactivateGood(State(), i);
      groups := groups[i := groups[i].(lastInuse := groups[i].inuse)];
      WalkShape(groups, i, 0, 0);
      PropagateActiveWeight(i, 0, 0);
      groups := groups[i := groups[i].(listed := false)];
    }

    method WeightUpdated(i: nat, weight: int)
      requires Good(State()) && 0 < i < |groups| && 1 <= weight && 1 <= groups[i].weight
      modifies this
      ensures State() == Reweigh(old(State()), i, weight)
      ensures Good(State())
    {
      ReweighGood(State(), i, weight);
      var g := groups[i];
      if weight != g.weight && g.active != 0 {
        WalkShape(groups, i, weight, Min(weight, CeilDiv(g.inuse * weight, g.weight)));
        PropagateActiveWeight(i, weight, CeilDiv(g.inuse * weight, g.weight));
        CommitActiveWeights();
      }
      groups := groups[i := groups[i].(weight := weight)];
    }
  }
}
