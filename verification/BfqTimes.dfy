/** What the timestamps of an entity mean: from start to finish is the service divided by the weight, and
 * where an entity starts when it is activated, requeued or pushed up. */
module BfqTimes {
  import opened Arith
  import opened Options
  import opened BfqTree
  import opened BfqWeights
  import opened BfqWeightsProofs

  function Span(m: Member): int {
    Sub64(m.finish, m.start)
  }

  /** `span` units of virtual time are what `amount` of service takes at this weight, rounded down, if the
   * scaled service fits 64 bits. */
  predicate Takes(span: int, amount: nat, weight: nat) {
    amount * 0x40_0000 < RANGE ==> span * weight <= amount * 0x40_0000 < (span + 1) * weight
  }

  lemma AddThenSub(a: nat, d: nat)
    requires IsU64(a) && IsU64(d)
    ensures IsU64(Add64(a, d)) && Sub64(Add64(a, d), a) == d
  {
  }

  lemma DeltaTakes(amount: nat, weight: nat)
    requires weight >= 1
    ensures IsU64(Delta(amount, weight)) && Takes(Delta(amount, weight), amount, weight)
  {
    var x := amount * SERVICE_UNIT % RANGE;
    DivMod(x, weight);
    var q := x / weight;
    assert (q + 1) * weight == q * weight + weight;
    FloorBelow(x, weight, 0);
    if q >= RANGE {
      MulMonotone(1, weight, q);
    }
  }

  lemma FinishedTakes(m: Member, amount: nat)
    requires WellFormed(m)
    ensures var f := Finished(m, amount);
            WellFormed(f) && Takes(Span(f), amount, m.weight) && f.start == m.start && f.weight == m.weight
  {
    DeltaTakes(amount, m.weight);
    hide Delta;
    AddThenSub(m.start, Delta(amount, m.weight));
  }

  // ---------- pushing up ----------

  lemma ShiftedDistance(a: nat, b: nat, d: nat)
    requires IsU64(a) && IsU64(b) && IsU64(d)
    ensures Sub64(Add64(a, d), Add64(b, d)) == Sub64(a, b)
  {
  }

  lemma PartOfGap(gap: nat, factor: nat)
    requires factor >= 1
    ensures 0 <= gap / factor <= gap && gap / factor * factor <= gap < (gap / factor + 1) * factor
  {
    DivMod(gap, factor);
    FloorBelow(gap, factor, 0);
    var d := gap / factor;
    assert (d + 1) * factor == d * factor + factor;
    if d > gap {
      MulMonotone(1, factor, d);
    }
  }

  lemma NotPast(f: nat, v: nat, d: nat)
    requires IsU64(f) && IsU64(v) && Gt(v, f) && d <= Sub64(v, f)
    ensures !Gt(Add64(f, d), v)
  {
  }

  /** How far an entity that would finish at `f` is moved at time `v`: by the gap, divided by its raising
   * factor, which leaves it not after `v`. */
  ghost predicate MovedBy(moved: int, f: int, v: int, factor: nat) {
    if Gt(v, f) then moved * factor <= Sub64(v, f) < (moved + 1) * factor else moved == 0
  }

  function Factor(m: Member): nat {
    if m.isQueue then m.coeff else 1
  }

  /** An entity that would finish in the past is moved as a whole. */
  lemma BackshiftMoves(m: Member, v: nat)
    requires WellFormed(m) && IsU64(v)
    ensures var b := Backshift(m, v);
            && WellFormed(b) && b == m.(start := b.start, finish := b.finish) && Span(b) == Span(m)
            && MovedBy(Sub64(b.start, m.start), m.finish, v, Factor(m))
            && (Gt(v, m.finish) ==> !Gt(b.finish, v))
  {
    if Gt(v, m.finish) {
      var gap: nat := Sub64(v, m.finish);
      PartOfGap(gap, Factor(m));
      var d: nat := gap / Factor(m);
      ShiftedDistance(m.finish, m.start, d);
      NotPast(m.finish, v, d);
      AddThenSub(m.start, d);
      AddThenSub(m.finish, d);
      assert Backshift(m, v) == m.(start := Add64(m.start, d), finish := Add64(m.finish, d));
      hide Backshift, Sub64, Add64, Gt;
    }
  }

  /** Without raising, it then finishes right now. */
  lemma BackshiftReaches(m: Member, v: nat)
    requires WellFormed(m) && IsU64(v) && Gt(v, m.finish) && (m.isQueue ==> m.coeff == 1)
    ensures Backshift(m, v).finish == v
  {
  }

  // ---------- enqueueing ----------

  /** However an entity comes onto the active tree, it has the time that its budget takes at its weight. */
  lemma EnqueueTakes(s: Level, i: nat, backshifted: bool)
    requires Shaped(s) && i < |s.members|
    ensures var m := Enqueue(s, i, backshifted).members[i];
            WellFormed(m) && Takes(Span(m), m.budget, m.weight)
  {
    RepricedShaped(s, i, true);
    var s1 := UpdateWeightPrio(s, i, true);
    hide UpdateWeightPrio, Takes, Finished, Backshift;
    var m := s1.members[i];
    FinishedTakes(m, m.budget);
    FinishedKeeps(m, m.budget);
    var f := Finished(m, m.budget);
    BackshiftMoves(f, s1.vtime[f.prioClass]);
  }

  lemma FinishedKeeps(m: Member, amount: nat)
    requires m.weight >= 1
    ensures Finished(m, amount) == m.(finish := Finished(m, amount).finish)
  {
  }

  /** Where it starts: where it was, or at the time of its new class if the class changes; and moved if it was
   * let off waiting and would finish in the past. */
  lemma EnqueueStart(s: Level, i: nat, backshifted: bool)
    requires Shaped(s) && i < |s.members|
    ensures var m, t := s.members[i], Enqueue(s, i, backshifted).members[i];
            && t.prioClass < CLASSES
            && var v := s.vtime[t.prioClass];
               var base := if t.prioClass == m.prioClass then m.start else v;
               if backshifted then MovedBy(Sub64(t.start, base), Add64(base, Span(t)), v, Factor(t))
               else t.start == base
  {
    RepricedShaped(s, i, true);
    var s1 := UpdateWeightPrio(s, i, true);
    var m := s1.members[i];
    assert m.start == if m.prioClass == s.members[i].prioClass then s.members[i].start else s.vtime[m.prioClass];
    assert s1.vtime == s.vtime;
    hide UpdateWeightPrio, Takes, Finished, Backshift, MovedBy, Gt;
    FinishedTakes(m, m.budget);
    FinishedKeeps(m, m.budget);
    var f := Finished(m, m.budget);
    SubThenAdd(f.finish, f.start);
    BackshiftMoves(f, s1.vtime[f.prioClass]);
  }

  lemma SubThenAdd(a: nat, b: nat)
    requires IsU64(a) && IsU64(b)
    ensures 0 <= Sub64(a, b) && Add64(b, Sub64(a, b)) == a
  {
  }

  // ---------- activation ----------

  lemma ActivateTakes(s: Level, i: nat, waited: bool)
    requires Shaped(s) && i < |s.members|
    ensures var m := Activate(s, i, waited).members[i];
            WellFormed(m) && Takes(Span(m), m.budget, m.weight)
  {
    hide Enqueue, Takes, Span;
    var m := s.members[i];
    var v := s.vtime[m.prioClass];
    var backshifted := waited && Gt(v, m.finish);
    EnqueueTakes(Admit(s, i, if backshifted then m.finish else v), i, backshifted);
  }

  lemma RequeueTakes(s: Level, i: nat)
    requires Shaped(s) && i < |s.members|
    ensures var m := Requeue(s, i).members[i];
            WellFormed(m) && Takes(Span(m), m.budget, m.weight)
  {
    hide Enqueue, Takes, Span;
    FinishedTakes(s.members[i], s.members[i].service);
    EnqueueTakes(Pull(s, i), i, false);
  }

  lemma LargerDivisor(a: int, b: int, x: nat, light: nat, heavy: nat)
    requires 1 <= light <= heavy && b * heavy <= x < (a + 1) * light
    ensures b <= a
  {
    if a + 1 <= 0 {
      MulMonotone(a + 1, 0, light);
    } else if a < b {
      MulMonotone(a + 1, b, heavy);
      MulMonotone(light, heavy, a + 1);
    }
  }

  /** Of two entities that are given the time their budgets take, the heavier never has the longer time for
   * an equal budget. */
  lemma HeavierNotLonger(light: Member, heavy: Member)
    requires Takes(Span(light), light.budget, light.weight) && Takes(Span(heavy), heavy.budget, heavy.weight)
    requires 1 <= light.weight <= heavy.weight && light.budget == heavy.budget && light.budget * 0x40_0000 < RANGE
    ensures Span(heavy) <= Span(light)
  {
    LargerDivisor(Span(light), Span(heavy), light.budget * 0x40_0000, light.weight, heavy.weight);
  }

  /** An activated entity starts at the present, or where it last finished if it is remembered on the idle
   * tree and that is later. One that waited for a request in vain starts where it last finished, and is
   * then moved as far as its raising factor lets it. */
  lemma ActivateStart(s: Level, i: nat, waited: bool)
    requires Shaped(s) && i < |s.members|
    ensures var m, t := s.members[i], Activate(s, i, waited).members[i];
            var v := s.vtime[m.prioClass];
            t.prioClass == m.prioClass ==>
              if waited && Gt(v, m.finish) then
                MovedBy(Sub64(t.start, m.finish), Add64(m.finish, Span(t)), v, Factor(t))
              else
                && !Gt(v, t.start) && (m.place == Idle(m.prioClass) ==> !Gt(m.finish, t.start))
                && (t.start == v || (t.start == m.finish && m.place == Idle(m.prioClass)))
  {
    var m := s.members[i];
    var v := s.vtime[m.prioClass];
    var backshifted := waited && Gt(v, m.finish);
    var s1 := Admit(s, i, if backshifted then m.finish else v);
    assert s1.members[i].prioClass == m.prioClass && s1.vtime == s.vtime;
    hide Enqueue, MovedBy;
    EnqueueStart(s1, i, backshifted);
  }

  /** The entity in service is requeued from where its service ended; another one from where it started. */
  lemma RequeueStart(s: Level, i: nat)
    requires Shaped(s) && i < |s.members|
    ensures var m, t := s.members[i], Requeue(s, i).members[i];
            t.prioClass == m.prioClass ==>
              if s.inService == Some(i) then Takes(Sub64(t.start, m.start), m.service, m.weight) else t.start == m.start
  {
    var m := s.members[i];
    FinishedTakes(m, m.service);
    hide Enqueue, Takes, Finished;
    FinishedKeeps(m, m.service);
    var s1 := Pull(s, i);
    assert s1.members[i].prioClass == m.prioClass;
    EnqueueStart(s1, i, false);
  }

  /** An entity that leaves finishes after the service it received, and is remembered on the idle tree
   * exactly if that is allowed and still to come. */
  lemma DeactivateCharges(s: Level, i: nat, intoIdle: bool)
    requires Good(s) && i < |s.members| && s.members[i].onSt
    ensures var m, t := s.members[i], Deactivate(s, i, intoIdle).members[i];
            && t.start == m.start && Takes(Span(t), m.service, m.weight)
            && t.place == (if intoIdle && Gt(t.finish, s.vtime[m.prioClass]) then Idle(m.prioClass) else Off)
            && (t.onSt <==> t.place != Off)
            && t.service == (if s.inService == Some(i) then m.service else 0)
    ensures Deactivate(s, i, intoIdle).inService == if s.inService == Some(i) then None else s.inService
  {
    var m := s.members[i];
    FinishedTakes(m, m.service);
    hide Takes, Finished, Gt, Balanced;
    FinishedKeeps(m, m.service);
    assert AtHome(m) && m.prioClass < CLASSES;
  }

  /** An entity taken into service is off its tree exactly if it is no longer a candidate, and counts on. */
  lemma ServedEntity(s: Level, i: nat, extract: bool)
    requires Good(s) && Enabled(s, EvSetInService(i, extract))
    ensures var t := SetInService(s, i, extract);
            && t.inService == Some(i) && (t.members[i].place == Off <==> extract) && t.members[i].onSt
            && t.members[i] == s.members[i].(place := t.members[i].place)
  {
    assert s.members[i].onSt;
  }

  // ---------- the weight applied ----------

  /** The weight that is applied is the pending one, brought into 1 to 1000, times the raising factor; the
   * class is applied only where that is safe, and until then stays pending. */
  lemma RepricedMeans(m: Member, classToo: bool)
    requires WellFormed(m)
    ensures var r := Repriced(m, classToo);
            && r.weight == r.orig * m.coeff
            && (m.newWeight == m.orig ==> r.orig == m.orig)
            && (m.newWeight != m.orig ==>
                  && 1 <= r.orig <= 1000 && (1 <= m.newWeight <= 1000 ==> r.orig == m.newWeight)
                  && (m.newWeight < 1 ==> r.orig == 1) && (1000 < m.newWeight ==> r.orig == 1000))
            && (m.isQueue && classToo ==> r.prioClass == m.newClass && !r.changed)
            && (!(m.isQueue && classToo) ==> r.prioClass == m.prioClass)
            && (r.changed ==> m.changed) && (r.prioClass != m.newClass ==> r.changed == m.changed)
            && r.start == m.start && r.finish == m.finish && r.place == m.place && r.onSt == m.onSt
  {
  }
}
