/** Bios as the kernel keeps them: counters, flags and statuses updated in place, and completion as a
 * loop that walks up the chain. */
module BioPoolObject {
  import opened Options
  import opened BioChain
  import opened BioChainProofs

  lemma HasToken(s: State, b: nat)
    requires Inv(s, Some(b))
    ensures s.Has(b) && (s.bios[b].parent.Some? ==> s.Has(s.bios[b].parent.value))
    ensures |Arrive(s, b).0.bios| == |s.bios|
  {
  }

  /** After `b` ended, one completion is on its way to its parent. */
  lemma NextArrival(s: State, b: nat, p: nat)
    requires Inv(s, Some(b)) && Arrive(s, b).1 && s.bios[b].parent == Some(p)
    ensures s.Has(p) && |Arrive(s, b).0.bios| == |s.bios|
    ensures Inv(PassStatus(Arrive(s, b).0, b, p), Some(p))
    ensures EndIo(s, b) == EndIo(PassStatus(Arrive(s, b).0, b, p), p)
  {
    assert Passing(s, b);
    ArriveEnds(s, b);
  }

  lemma PassStatusIs(s: State, b: nat, p: nat)
    requires s.Has(b) && s.Has(p)
    ensures PassStatus(s, b, p) ==
            if s.bios[p].status == 0 then s.With(p, s.bios[p].(status := s.bios[b].status)) else s
  {
  }

  lemma NotedKeeps(s: State, b: nat, error: int)
    requires Inv(s, None) && s.Has(b) && s.bios[b].pending
    ensures Inv(Noted(s, b, error), Some(b))
  {
    assert Counted(s, b, Extra(None, b));
    NotedCounted(s, b, error);
    NotedTrue(s, b, error);
    var t := Noted(s, b, error);
    assert forall c: nat, q: nat :: Told(t, c, q) <==> Told(s, c, q);
  }

  class BioPool {
    var bios: seq<Bio>
    var order: seq<nat>
    var bug: bool

    function State(): State
      reads this
    {
      BioChain.State(bios, order, bug)
    }

    constructor ()
      ensures State() == EMPTY && Inv(State(), None)
    {
      bios, order, bug := [], [], false;
    }

    method New() returns (b: nat)
      requires Inv(State(), None)
      modifies this
      ensures State() == Alloc(old(State())) && b == |old(bios)|
      ensures Inv(State(), None)
    {
      AllocKeeps(State());
      b := |bios|;
      bios := bios + [FRESH];
    }

    method ChainTo(c: nat, p: nat)
      requires Inv(State(), None) && CanChain(State(), c, p)
      modifies this
      ensures State() == Chain(old(State()), c, p)
      ensures Inv(State(), None)
    {
      ChainKeeps(State(), c, p);
      bios := bios[c := bios[c].(parent := Some(p))];
      bios := bios[p := bios[p].(chained := true)];
      bios := bios[p := bios[p].(remaining := bios[p].remaining + 1)];
    }

    /** Take one completion off the count; say whether it was the last. */
    method RemainingDone(b: nat) returns (done: bool)
      requires Inv(State(), Some(b))
      modifies this
      ensures State() == Arrive(old(State()), b).0 && done == Arrive(old(State()), b).1
    {
      assert Counted(State(), b, Extra(Some(b), b));
      if bios[b].chained {
        bios := bios[b := bios[b].(remaining := bios[b].remaining - 1)];
        if bios[b].remaining != 0 {
          return false;
        }
        bios := bios[b := bios[b].(chained := false)];
      }
      bios := bios[b := bios[b].(ended := true, endedAt := |order|)];
      order := order + [b];
      return true;
    }

    method BioEndIo(b: nat)
      requires Inv(State(), Some(b))
      modifies this
      ensures State() == EndIo(old(State()), b)
      ensures Inv(State(), None)
    {
      hide Inv, Arrive, PassStatus;
      EndIoKeeps(State(), b);
      ghost var goal := EndIo(State(), b);
      var bio := b;
      while true
        invariant Inv(State(), Some(bio)) && EndIo(State(), bio) == goal
        decreases Unended(bios)
      {
        ghost var s := State();
        HasToken(s, bio);
        var up := bios[bio].parent;
        var done := RemainingDone(bio);
        if !done || up.None? {
          return;
        }
        NextArrival(s, bio, up.value);
        ArriveUnended(s, bio, up.value);
        if bios[up.value].status == 0 {
          bios := bios[up.value := bios[up.value].(status := bios[bio].status)];
        }
        assert State() == PassStatus(Arrive(s, bio).0, bio, up.value) by {
          PassStatusIs(Arrive(s, bio).0, bio, up.value);
        }
        bio := up.value;
      }
    }

    /** The driver completes `b`. */
    method CompleteBio(b: nat, error: int)
      requires Inv(State(), None) && b < |bios| && bios[b].pending
      modifies this
      ensures State() == Complete(old(State()), b, error)
      ensures Inv(State(), None)
    {
      NotedKeeps(State(), b, error);
      if error != 0 {
        bios := bios[b := bios[b].(status := error)];
      }
      bios := bios[b := bios[b].(pending := false, reported := error)];
      assert bios == Noted(old(State()), b, error).bios;
      BioEndIo(b);
    }
  }
}
