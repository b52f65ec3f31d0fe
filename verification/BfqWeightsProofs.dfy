/** The weight sums stay exact over every run; and exactly when applying a pending weight keeps them so. */
module BfqWeightsProofs {
  import opened Options
  import opened BfqTree
  import opened BfqWeights

  // ---------- one step ----------

  /** Applying a pending weight or class moves the sums with the entity exactly if the entity is counted,
   * or nothing is pending, or the pending values change nothing. */
  lemma UpdateConservesIff(s: Level, i: nat, classToo: bool)
    requires Shaped(s) && i < |s.members|
    ensures var m := s.members[i];
            var m' := Repriced(m, classToo);
            Conserves(s, UpdateWeightPrio(s, i, classToo), i)
            <==> m.onSt || !m.changed || (m'.weight == m.weight && m'.prioClass == m.prioClass)
  {
    var m := s.members[i];
    var s' := UpdateWeightPrio(s, i, classToo);
    var m' := s'.members[i];
    RepricedShaped(s, i, classToo);
    assert s'.members == s.members[i := m'];
    assert m'.onSt == m.onSt;
    assert m.changed && !m.onSt ==>
        s'.wsum[m'.prioClass] - Share(m', m'.prioClass) == s'.wsum[m'.prioClass] && Share(m, m.prioClass) == 0;
    assert m.prioClass < CLASSES && m'.prioClass < CLASSES;
  }

  /** An uncounted entity whose weight changes throws the sum of its class off by the difference. */
  lemma UpdateOffTreeDrifts(s: Level, i: nat)
    requires Shaped(s) && Balanced(s) && i < |s.members| && s.members[i].changed && !s.members[i].onSt
    ensures var m := s.members[i];
            var s' := UpdateWeightPrio(s, i, false);
            s'.wsum[m.prioClass] == Held(s'.members, m.prioClass) + Repriced(m, false).weight - m.weight
  {
    var m := s.members[i];
    var s' := UpdateWeightPrio(s, i, false);
    HeldUpdate(s.members, i, s'.members[i], m.prioClass);
  }

  lemma {:induction false} ConservesTwice(s: Level, s': Level, s'': Level, i: nat)
    requires i < |s.members| && |s.wsum| == CLASSES && Conserves(s, s', i) && Conserves(s', s'', i)
    ensures Conserves(s, s'', i)
  {
    hide Share;
    assert s''.members == s.members[i := s''.members[i]];
    forall c: nat | c < CLASSES
      ensures s''.wsum[c] - Share(s''.members[i], c) == s.wsum[c] - Share(s.members[i], c)
    {
    }
  }

  lemma EnqueueKeeps(s: Level, i: nat, backshifted: bool)
    requires Shaped(s) && i < |s.members| && s.members[i].onSt
    ensures var s' := Enqueue(s, i, backshifted);
            && Shaped(s') && Conserves(s, s', i) && s'.inService == s.inService && s'.vtime == s.vtime
            && s'.members[i].place == Active(s'.members[i].prioClass) && s'.members[i].onSt
  {
    UpdateConservesIff(s, i, true);
    RepricedShaped(s, i, true);
    var s1 := UpdateWeightPrio(s, i, true);
    var s' := Enqueue(s, i, backshifted);
    hide UpdateWeightPrio, Delta, Gt;
    assert s1.members[i].onSt && s1.inService == s.inService;
    assert Conserves(s1, s', i);
    ConservesTwice(s, s1, s', i);
  }

  /** What every step keeps. */
  ghost predicate Good(s: Level) {
    Shaped(s) && Balanced(s) && Marked(s) && AllAtHome(s)
  }

  /** It is enough to look at the one entity a step touches. */
  lemma TouchKeeps(s: Level, s': Level, i: nat)
    requires Good(s) && i < |s.members| && Conserves(s, s', i) && s'.vtime == s.vtime
    requires var m := s'.members[i];
             && WellFormed(m) && AtHome(m) && (m.onSt <==> m.place != Off || s'.inService == Some(i))
             && (s'.inService == s.inService || (s.inService in {None, Some(i)} && s'.inService in {None, Some(i)}))
             && (s'.inService == Some(i) ==> !m.place.Idle?)
    ensures Good(s')
  {
    hide WellFormed, Share;
    ConservedBalance(s, s', i);
  }

  lemma ActivateKeeps(s: Level, i: nat, waited: bool)
    requires Good(s) && i < |s.members| && s.inService != Some(i) && !s.members[i].place.Active?
    ensures Good(Activate(s, i, waited))
  {
    var m := s.members[i];
    var v := s.vtime[m.prioClass];
    var backshifted := waited && Gt(v, m.finish);
    var least := if backshifted then m.finish else v;
    var s1 := Admit(s, i, least);
    AdmitConserves(s, i, least);
    EnqueueKeeps(s1, i, backshifted);
    hide Enqueue, Admit, Gt;
    var s' := Enqueue(s1, i, backshifted);
    ConservesTwice(s, s1, s', i);
    TouchKeeps(s, s', i);
  }

  lemma AdmitConserves(s: Level, i: nat, least: nat)
    requires Good(s) && i < |s.members| && s.inService != Some(i) && !s.members[i].place.Active? && IsU64(least)
    ensures var s' := Admit(s, i, least);
            && Shaped(s') && s'.members[i].onSt && Conserves(s, s', i)
            && s'.inService == s.inService && s'.vtime == s.vtime
  {
    hide Balanced, Gt;
  }

  lemma PullConserves(s: Level, i: nat)
    requires Good(s) && i < |s.members| && (s.inService == Some(i) || s.members[i].place.Active?)
    ensures var s' := Pull(s, i);
            && Shaped(s') && s'.members[i].onSt && Conserves(s, s', i)
            && s'.inService == s.inService && s'.vtime == s.vtime
  {
    hide Balanced, Delta;
  }

  lemma RequeueKeeps(s: Level, i: nat)
    requires Good(s) && i < |s.members| && (s.inService == Some(i) || s.members[i].place.Active?)
    ensures Good(Requeue(s, i))
  {
    var s1 := Pull(s, i);
    PullConserves(s, i);
    EnqueueKeeps(s1, i, false);
    hide Enqueue, Pull;
    var s' := Enqueue(s1, i, false);
    ConservesTwice(s, s1, s', i);
    TouchKeeps(s, s', i);
  }

  lemma DeactivateKeeps(s: Level, i: nat, intoIdle: bool)
    requires Good(s) && i < |s.members|
    ensures Good(Deactivate(s, i, intoIdle))
  {
    if s.members[i].onSt {
      hide Gt, Delta, Balanced;
      var s' := Deactivate(s, i, intoIdle);
      assert Conserves(s, s', i);
      TouchKeeps(s, s', i);
    }
  }

  lemma PutIdleKeeps(s: Level, i: nat)
    requires Good(s) && i < |s.members| && s.members[i].place.Idle?
    ensures Good(PutIdle(s, i))
  {
    hide Balanced;
    var s' := PutIdle(s, i);
    assert Conserves(s, s', i);
    TouchKeeps(s, s', i);
  }

  lemma UpdateKeeps(s: Level, i: nat)
    requires Good(s) && i < |s.members| && s.members[i].onSt
    ensures Good(UpdateWeightPrio(s, i, false))
  {
    var s' := UpdateWeightPrio(s, i, false);
    UpdateConservesIff(s, i, false);
    RepricedShaped(s, i, false);
    hide Balanced;
    TouchKeeps(s, s', i);
  }

  lemma QuietKeeps(s: Level, e: Event)
    requires Good(s) && Enabled(s, e)
    requires e.EvSetInService? || e.EvReprioritise? || e.EvCharge?
    ensures Good(Apply(s, e))
  {
    hide Balanced;
    var s' := Apply(s, e);
    assert Conserves(s, s', e.i);
    TouchKeeps(s, s', e.i);
  }

  lemma ApplyKeeps(s: Level, e: Event)
    requires Good(s) && Enabled(s, e)
    ensures Good(Apply(s, e))
  {
    hide ActivateRequeue, Deactivate, PutIdle, UpdateWeightPrio, SetInService, Reprioritise, Charge;
    match e
    case EvActivateRequeue(i, w) => ActivateRequeueKeeps(s, i, w);
    case EvDeactivate(i, idle) => DeactivateKeeps(s, i, idle);
    case EvPutIdle(i) => PutIdleKeeps(s, i);
    case EvUpdateWeight(i) => UpdateKeeps(s, i);
    case EvSetInService(_, _) => QuietKeeps(s, e);
    case EvResetInService =>
    case EvReprioritise(_, _, _, _) => QuietKeeps(s, e);
    case EvCharge(_, _, _) => QuietKeeps(s, e);
    case EvVtime(_, _) =>
  }

  lemma ActivateRequeueKeeps(s: Level, i: nat, waited: bool)
    requires Good(s) && i < |s.members|
    ensures Good(ActivateRequeue(s, i, waited))
  {
    assert AtHome(s.members[i]);
    hide Activate, Requeue, Good;
    if s.inService == Some(i) || s.members[i].place == Active(s.members[i].prioClass) {
      RequeueKeeps(s, i);
    } else {
      ActivateKeeps(s, i, waited);
    }
  }

  // ---------- the tree an entity is on ----------

  /** Applying a pending class takes an entity away from its tree's class exactly if it is on a tree and
   * the class changes. */
  lemma ClassChangeLeavesHomeIff(m: Member, classToo: bool)
    requires AtHome(m)
    ensures AtHome(Repriced(m, classToo)) <==> m.place == Off || Repriced(m, classToo).prioClass == m.prioClass
  {
  }

  /** Activation moves the sums with the entity exactly if it is on the idle tree of its own class or not
   * counted yet. */
  lemma AdmitConservesIff(s: Level, i: nat, least: nat)
    requires Shaped(s) && i < |s.members|
    ensures var m := s.members[i];
            Conserves(s, Admit(s, i, least), i) <==> m.place == Idle(m.prioClass) || !m.onSt
  {
    var m := s.members[i];
    var s' := Admit(s, i, least);
    assert s'.members == s.members[i := s'.members[i]];
    assert m.place != Idle(m.prioClass) ==> s'.wsum[m.prioClass] == s.wsum[m.prioClass] + m.weight;
  }

  /** An entity left on the idle tree of a former class would be counted twice. */
  lemma StaleClassCountsTwice(s: Level, i: nat, least: nat)
    requires Shaped(s) && Balanced(s) && i < |s.members|
    requires s.members[i].place.Idle? && !AtHome(s.members[i]) && s.members[i].onSt
    ensures var m, s' := s.members[i], Admit(s, i, least);
            s'.wsum[m.prioClass] == Held(s'.members, m.prioClass) + m.weight
  {
    var m, s' := s.members[i], Admit(s, i, least);
    HeldUpdate(s.members, i, s'.members[i], m.prioClass);
  }

  /** Entity `i` is on a tree of class `c`, or in service and of that class. */
  predicate BelongsTo(s: Level, i: nat, c: nat)
    requires i < |s.members|
  {
    var m := s.members[i];
    m.place == Active(c) || m.place == Idle(c) || (s.inService == Some(i) && m.prioClass == c)
  }

  /** The weights of the entities from `from` on that are on the trees of class `c` or in service. */
  function OnTrees(s: Level, from: nat, c: nat): nat
    requires from <= |s.members|
    decreases |s.members| - from
  {
    if from == |s.members| then 0
    else (if BelongsTo(s, from, c) then s.members[from].weight else 0) + OnTrees(s, from + 1, c)
  }

  lemma {:induction false} HeldOnTrees(s: Level, from: nat, c: nat)
    requires Marked(s) && AllAtHome(s) && from <= |s.members|
    ensures Held(s.members[from..], c) == OnTrees(s, from, c)
    decreases |s.members| - from
  {
    if from < |s.members| {
      HeldOnTrees(s, from + 1, c);
      assert s.members[from..][1..] == s.members[from + 1..];
      assert AtHome(s.members[from]);
    }
  }

  // ---------- every run ----------

  ghost predicate Initial(s: Level) {
    && Shaped(s) && s.inService.None?
    && (forall i | 0 <= i < |s.members| :: s.members[i].place == Off && !s.members[i].onSt)
    && (forall c | 0 <= c < CLASSES :: s.wsum[c] == 0)
  }

  /** From `s`, the events lead to `s'`, each enabled when it happens. */
  ghost predicate Leads(s: Level, es: seq<Event>, s': Level)
    decreases |es|
  {
    if es == [] then s' == s
    else Shaped(s) && Enabled(s, es[0]) && Leads(Apply(s, es[0]), es[1..], s')
  }

  lemma {:induction false} RunKeeps(s: Level, es: seq<Event>, s': Level)
    requires Good(s) && Leads(s, es, s')
    ensures Good(s')
    decreases |es|
  {
    hide Good, Enabled, Apply;
    if es != [] {
      ApplyKeeps(s, es[0]);
      RunKeeps(Apply(s, es[0]), es[1..], s');
    }
  }

  lemma {:induction false} NothingHeld(ms: seq<Member>, c: nat)
    requires forall i | 0 <= i < |ms| :: !ms[i].onSt
    ensures Held(ms, c) == 0
  {
    if ms != [] {
      NothingHeld(ms[1..], c);
    }
  }

  lemma InitialGood(s: Level)
    requires Initial(s)
    ensures Good(s)
  {
    forall c: nat | c < CLASSES ensures s.wsum[c] == Held(s.members, c) {
      NothingHeld(s.members, c);
    }
  }

  /** After every run each class's sum is the total weight of the entities it holds, and an entity is held
   * exactly while it is on a tree or in service. */
  lemma WeightsConserved(s: Level, es: seq<Event>, s': Level, c: nat)
    requires Initial(s) && Leads(s, es, s') && c < CLASSES
    ensures |s'.wsum| == CLASSES && s'.wsum[c] == Held(s'.members, c) && Marked(s') && AllAtHome(s')
    ensures s'.wsum[c] == OnTrees(s', 0, c)
  {
    InitialGood(s);
    RunKeeps(s, es, s');
    HeldOnTrees(s', 0, c);
    assert s'.members[0..] == s'.members;
  }
}
