/** The scheduling level in memory: entities that point to the tree they are on, trees that hold their
 * entities, and a service tree per class. The tests compare tree pointers, as the code does; the model
 * of the level is kept as a ghost and tied to the objects. */
module BfqLevelObject {
  import opened Options
  import opened BfqTree
  import opened BfqWeights
  import opened BfqWeightsProofs
  import opened BfqTimes

  /** The root of a tree, with the entities linked below it. */
  class Root {
    var nodes: set<Schedulable>

    constructor ()
      ensures nodes == {}
    {
      nodes := {};
    }
  }

  class Schedulable {
    var weight: nat
    var orig: nat
    var newWeight: int
    var prioClass: nat
    var newClass: nat
    var changed: bool
    const isQueue: bool
    var coeff: nat
    var onSt: bool
    var start: nat
    var finish: nat
    var budget: nat
    var service: nat
    var tree: Root?

    ghost function Value(place: Place): Member
      reads this
    {
      Member(weight, orig, newWeight, prioClass, newClass, changed, isQueue, coeff, place, onSt,
             start, finish, budget, service)
    }

    method CalcFinish(amount: nat)
      requires weight >= 1
      modifies `finish
      ensures forall p: Place :: Value(p) == Finished(old(Value(p)), amount)
    {
      finish := Add64(start, Delta(amount, weight));
    }

    method PushUp(v: nat)
      requires coeff >= 1
      modifies `start, `finish
      ensures forall p: Place :: Value(p) == Backshift(old(Value(p)), v)
    {
      if Gt(v, finish) {
        var d: nat := Sub64(v, finish);
        if isQueue {
          d := d / coeff;
        }
        start := Add64(start, d);
        finish := Add64(finish, d);
      }
    }

    method Reprice(classToo: bool)
      modifies `newWeight, `orig, `prioClass, `changed, `weight
      ensures forall p: Place :: Value(p) == Repriced(old(Value(p)), classToo)
    {
      if newWeight != orig {
        if newWeight < MIN_WEIGHT {
          newWeight := MIN_WEIGHT;
        } else if newWeight > MAX_WEIGHT {
          newWeight := MAX_WEIGHT;
        }
        orig := newWeight;
      }
      if isQueue && classToo {
        prioClass := newClass;
      }
      if !isQueue || prioClass == newClass {
        changed := false;
      }
      weight := orig * coeff;
    }
  }

  ghost function With(s: Level, i: nat, m: Member): Level
    requires i < |s.members|
  {
    s.(members := s.members[i := m])
  }

  ghost function Heavier(s: Level, c: nat, d: int): Level
    requires c < |s.wsum|
  {
    s.(wsum := s.wsum[c := s.wsum[c] + d])
  }

  /** The update, one field after the other. */
  lemma UpdateInSteps(s: Level, i: nat, classToo: bool)
    requires Shaped(s) && i < |s.members|
    ensures var m := s.members[i];
            var m' := Repriced(m, classToo);
            && m'.prioClass < CLASSES
            && (!m.changed ==> UpdateWeightPrio(s, i, classToo) == s)
            && (m.changed ==>
                  var s' := Heavier(With(Heavier(s, m.prioClass, 0 - m.weight), i, m'), m'.prioClass, m'.weight);
                  UpdateWeightPrio(s, i, classToo) ==
                  if m'.prioClass == m.prioClass then s' else With(s', i, m'.(start := s.vtime[m'.prioClass])))
  {
  }

  ghost function Retimed(s: Level, i: nat, backshifted: bool): Member
    requires Shaped(s) && i < |s.members|
  {
    var m := Finished(s.members[i], s.members[i].budget);
    if backshifted then Backshift(m, s.vtime[m.prioClass]) else m
  }

  lemma AdmitInSteps(s: Level, i: nat, least: nat)
    requires Shaped(s) && i < |s.members|
    ensures var m := s.members[i];
            Admit(s, i, least) ==
            if m.place == Idle(m.prioClass) then
              With(With(s, i, m.(place := Off)), i,
                   m.(place := Off, start := if Gt(least, m.finish) then least else m.finish))
            else
              With(Heavier(With(s, i, m.(start := least)), m.prioClass, m.weight), i, m.(start := least, onSt := true))
  {
    hide Gt;
  }

  ghost function Stopped(s: Level, i: nat): Level
    requires Shaped(s) && i < |s.members|
  {
    var s1 := With(s, i, Finished(s.members[i], s.members[i].service));
    if s.inService == Some(i) then s1.(inService := None) else With(s1, i, s1.members[i].(service := 0))
  }

  lemma LeaveInSteps(s: Level, i: nat)
    requires Shaped(s) && i < |s.members|
    ensures var s1 := Stopped(s, i);
            && |s1.members| == |s.members|
            && var m := s1.members[i];
            && m.place == s.members[i].place && m.prioClass == s.members[i].prioClass
            && Leave(s, i) ==
               if m.place == Active(m.prioClass) || (s.inService != Some(i) && m.place == Idle(m.prioClass))
               then With(s1, i, m.(place := Off)) else s1
  {
    hide Delta;
  }

  lemma EnqueueInSteps(s: Level, i: nat, backshifted: bool)
    requires Shaped(s) && i < |s.members|
    ensures var s1 := UpdateWeightPrio(s, i, true);
            && Shaped(s1) && |s1.members| == |s.members|
            && var m := Retimed(s1, i, backshifted);
            Enqueue(s, i, backshifted) == With(With(s1, i, m), i, m.(place := Active(m.prioClass)))
  {
    RepricedShaped(s, i, true);
    hide UpdateWeightPrio, Delta, Gt;
    assert |UpdateWeightPrio(s, i, true).members| == |s.members| by { UpdateInSteps(s, i, true); }
  }

  class ClassTree {
    const active: Root
    const idle: Root
    var wsum: int
    var vtime: nat

    constructor (active: Root, idle: Root)
      ensures this.active == active && this.idle == idle && wsum == 0 && vtime == 0
    {
      this.active, this.idle := active, idle;
      wsum, vtime := 0, 0;
    }
  }

  /** Three service trees with six roots, and entities that are all different. */
  ghost predicate Separate(ts: seq<ClassTree>, es: seq<Schedulable>, rs: set<Root>) {
    && |ts| == CLASSES
    && (forall c, d | 0 <= c < d < CLASSES :: ts[c] != ts[d])
    && (forall c, d | 0 <= c < d < CLASSES :: ts[c].active != ts[d].active && ts[c].idle != ts[d].idle)
    && (forall c, d | 0 <= c < CLASSES && 0 <= d < CLASSES :: ts[c].active != ts[d].idle)
    && (forall c | 0 <= c < CLASSES :: ts[c].active in rs && ts[c].idle in rs)
    && (forall i, j | 0 <= i < j < |es| :: es[i] != es[j])
  }

  lemma AdmitLeavesTree(s: Level, i: nat, least: nat)
    requires Good(s) && i < |s.members| && s.inService != Some(i) && !s.members[i].place.Active?
    ensures var m := Admit(s, i, least).members[i]; m.place == Off && m.prioClass == s.members[i].prioClass
  {
    assert AtHome(s.members[i]);
  }

  lemma LeaveShaped(s: Level, i: nat)
    requires Shaped(s) && i < |s.members|
    ensures Shaped(Leave(s, i)) && |Leave(s, i).members| == |s.members|
  {
    hide Delta;
  }

  lemma LeaveIsOff(s: Level, i: nat)
    requires Good(s) && i < |s.members|
    ensures var m := Leave(s, i).members[i]; m.place == Off && m.prioClass == s.members[i].prioClass
  {
    assert AtHome(s.members[i]);
  }

  lemma RepricedWellFormed(m: Member, classToo: bool)
    requires WellFormed(m)
    ensures WellFormed(Repriced(m, classToo)) && Repriced(m, classToo).place == m.place
  {
    var m' := Repriced(m, classToo);
    MulPositive(m'.orig, m'.coeff);
  }

  class SchedData {
    const trees: seq<ClassTree>
    const entities: seq<Schedulable>
    ghost const roots: set<Root>
    var inService: Schedulable?
    ghost var level: Level

    ghost predicate Apart() {
      Separate(trees, entities, roots)
    }

    ghost function RootAt(p: Place): Root?
      requires |trees| == CLASSES && (p != Off ==> p.of < CLASSES)
    {
      match p
      case Off => null
      case Active(c) => trees[c].active
      case Idle(c) => trees[c].idle
    }

    /** Each entity's fields are those of its member, and its tree pointer says where the member is. */
    ghost predicate EntitiesMatch()
      requires |trees| == CLASSES
      reads this, entities
    {
      && |entities| == |level.members|
      && forall i | 0 <= i < |entities| ::
           var m := level.members[i];
           && entities[i].Value(m.place) == m && (m.place != Off ==> m.place.of < CLASSES)
           && entities[i].tree == RootAt(m.place)
    }

    ghost predicate SumsMatch()
      reads this, trees
    {
      && |trees| == |level.wsum| == |level.vtime|
      && forall c | 0 <= c < |trees| :: trees[c].wsum == level.wsum[c] && trees[c].vtime == level.vtime[c]
    }

    /** A root holds exactly the entities of the level that point to it. */
    ghost predicate NodesMatch()
      reads entities`tree, roots
    {
      && (forall r, i | r in roots && 0 <= i < |entities| :: entities[i] in r.nodes <==> entities[i].tree == r)
      && (forall r, e | r in roots && e in r.nodes :: e in entities)
    }

    ghost predicate ServingMatches()
      reads this
    {
      match level.inService
      case None => inService == null
      case Some(i) => i < |entities| && inService == entities[i]
    }

    ghost predicate Matches()
      reads this, entities, trees, roots
    {
      Apart() && Shaped(level) && EntitiesMatch() && SumsMatch() && NodesMatch() && ServingMatches()
    }

    ghost predicate Valid()
      reads this, entities, trees, roots
    {
      Matches() && Good(level)
    }

    /** No entity on a tree, nothing in service, all sums zero. */
    constructor (ts: seq<ClassTree>, es: seq<Schedulable>, ghost rs: set<Root>, ghost ms: seq<Member>)
      requires Separate(ts, es, rs) && |es| == |ms|
      requires forall r | r in rs :: r.nodes == {}
      requires forall c | 0 <= c < |ts| :: ts[c].wsum == 0 && ts[c].vtime == 0
      requires forall i | 0 <= i < |es| ::
                 es[i].Value(Off) == ms[i] && es[i].tree == null && WellFormed(ms[i]) && !ms[i].onSt
      ensures Valid() && trees == ts && entities == es && roots == rs && level.members == ms
    {
      trees, entities, roots := ts, es, rs;
      inService := null;
      level := Level(ms, [0, 0, 0], [0, 0, 0], None);
      new;
      InitialGood(level);
      hide Good, WellFormed;
    }

    /** The entities of `S` from `from` on, by weight. */
    ghost function WeightOf(S: set<Schedulable>, from: nat): nat
      requires from <= |entities|
      reads entities
      decreases |entities| - from
    {
      if from == |entities| then 0
      else (if entities[from] in S then entities[from].weight else 0) + WeightOf(S, from + 1)
    }

    /** The entities that a class holds: those linked on its two trees, and the one in service. */
    ghost function HeldBy(c: nat): set<Schedulable>
      requires c < |trees|
      reads this, trees, trees[c].active, trees[c].idle, inService
    {
      trees[c].active.nodes + trees[c].idle.nodes +
      if inService != null && inService.prioClass == c then {inService} else {}
    }

    /** In memory, each class's sum is the weight of the entities linked on its trees and in service. */
    lemma SumIsLinkedWeight(c: nat)
      requires Valid() && c < CLASSES
      ensures |trees| == CLASSES && trees[c].wsum == WeightOf(HeldBy(c), 0)
      ensures forall e | e in HeldBy(c) :: e in entities
    {
      assert trees[c].active in roots && trees[c].idle in roots;
      HeldOnTrees(level, 0, c);
      assert level.members[0..] == level.members;
      LinkedFrom(0, c);
    }

    lemma {:induction false} LinkedFrom(from: nat, c: nat)
      requires Valid() && c < CLASSES && from <= |entities|
      ensures |trees| == CLASSES && |level.members| == |entities|
      ensures WeightOf(HeldBy(c), from) == OnTrees(level, from, c)
      decreases |entities| - from
    {
      hide Good;
      if from < |entities| {
        LinkedFrom(from + 1, c);
        LinkedOne(from, c);
      }
    }

    lemma LinkedOne(i: nat, c: nat)
      requires Matches() && c < CLASSES && i < |entities|
      ensures |trees| == CLASSES && |level.members| == |entities| && entities[i].weight == level.members[i].weight
      ensures entities[i] in HeldBy(c) <==> BelongsTo(level, i, c)
    {
      var e, m := entities[i], level.members[i];
      assert e.Value(m.place) == m;
      assert trees[c].active in roots && trees[c].idle in roots;
    }

    ghost predicate At(e: Schedulable, i: nat) {
      i < |entities| && entities[i] == e
    }

    ghost function Others(i: nat): set<Schedulable>
      requires i < |entities|
    {
      set x | x in entities && x != entities[i]
    }

    /** All entities but `i` are as `s` says. */
    ghost predicate OthersMatch(s: Level, i: nat)
      requires Apart() && i < |entities|
      reads Others(i)
    {
      && |entities| == |s.members|
      && forall j | 0 <= j < |entities| && j != i ::
           var m := s.members[j];
           && entities[j].Value(m.place) == m && (m.place != Off ==> m.place.of < CLASSES)
           && entities[j].tree == RootAt(m.place)
    }

    lemma Rejoin(s: Level, i: nat)
      requires Apart() && i < |entities| && OthersMatch(s, i)
      requires |level.members| == |s.members| && level.members == s.members[i := level.members[i]]
      requires var m := level.members[i];
               && entities[i].Value(m.place) == m && (m.place != Off ==> m.place.of < CLASSES)
               && entities[i].tree == RootAt(m.place)
      ensures EntitiesMatch()
    {
    }

    // ---------- linking ----------

    method Extract(root: Root, e: Schedulable, ghost i: nat)
      requires Matches() && At(e, i) && e.tree == root
      modifies this`level, root`nodes, e`tree
      ensures Matches() && level == With(old(level), i, old(level).members[i].(place := Off))
    {
      e.tree := null;
      root.nodes := root.nodes - {e};
      level := With(level, i, level.members[i].(place := Off));
    }

    method Insert(root: Root, e: Schedulable, ghost i: nat, ghost place: Place)
      requires Matches() && At(e, i) && e.tree == null && place != Off && place.of < CLASSES && RootAt(place) == root
      modifies this`level, root`nodes, e`tree
      ensures Matches() && level == With(old(level), i, old(level).members[i].(place := place))
    {
      e.tree := root;
      root.nodes := root.nodes + {e};
      level := With(level, i, level.members[i].(place := place));
    }

    /** What the objects tell about entity `i`. */
    lemma Look(e: Schedulable, i: nat)
      requires Matches() && At(e, i)
      ensures |trees| == CLASSES && Shaped(level) && i < |level.members|
      ensures var m := level.members[i];
              && e.weight == m.weight && e.prioClass == m.prioClass < CLASSES && e.changed == m.changed
              && e.onSt == m.onSt && e.start == m.start && e.finish == m.finish
              && e.budget == m.budget && e.service == m.service
              && IsU64(m.finish) && m.weight >= 1
      ensures trees[e.prioClass].vtime == level.vtime[e.prioClass] && IsU64(level.vtime[e.prioClass])
    {
    }

    /** What its tree pointer tells. */
    lemma LookAtTree(e: Schedulable, i: nat)
      requires Matches() && At(e, i)
      ensures |trees| == CLASSES && i < |level.members| && e.prioClass == level.members[i].prioClass < CLASSES
      ensures var m := level.members[i];
              && (e.tree == null <==> m.place == Off)
              && (e.tree == trees[e.prioClass].active <==> m.place == Active(m.prioClass))
              && (e.tree == trees[e.prioClass].idle <==> m.place == Idle(m.prioClass))
      ensures inService == e <==> level.inService == Some(i)
    {
    }

    lemma TreesDiffer(c: nat, d: nat)
      requires Matches() && c < CLASSES && d < CLASSES
      ensures |trees| == CLASSES && (trees[c] == trees[d] <==> c == d)
    {
    }

    // ---------- one entity's fields ----------

    method Finish(e: Schedulable, amount: nat, ghost i: nat)
      requires Matches() && At(e, i)
      modifies this`level, e`finish
      ensures Matches() && level == With(old(level), i, Finished(old(level).members[i], amount))
    {
      ghost var s := level;
      assert e.Value(s.members[i].place) == s.members[i] && OthersMatch(s, i) && WellFormed(s.members[i]);
      assert WellFormed(Finished(s.members[i], amount));
      hide WellFormed, EntitiesMatch, NodesMatch, Separate, OthersMatch, Delta;
      e.CalcFinish(amount);
      level := With(level, i, Finished(s.members[i], amount));
      Rejoin(s, i);
    }

    method PushEntityUp(e: Schedulable, v: nat, ghost i: nat)
      requires Matches() && At(e, i)
      modifies this`level, e`start, e`finish
      ensures Matches() && level == With(old(level), i, Backshift(old(level).members[i], v))
    {
      ghost var s := level;
      assert e.Value(s.members[i].place) == s.members[i] && OthersMatch(s, i) && WellFormed(s.members[i]);
      assert WellFormed(Backshift(s.members[i], v));
      hide WellFormed, EntitiesMatch, NodesMatch, Separate, OthersMatch, Gt;
      e.PushUp(v);
      level := With(level, i, Backshift(s.members[i], v));
      Rejoin(s, i);
    }

    method RepriceEntity(e: Schedulable, classToo: bool, ghost i: nat)
      requires Matches() && At(e, i)
      modifies this`level, e`newWeight, e`orig, e`prioClass, e`changed, e`weight
      ensures Matches() && level == With(old(level), i, Repriced(old(level).members[i], classToo))
    {
      ghost var s := level;
      assert e.Value(s.members[i].place) == s.members[i] && OthersMatch(s, i) && WellFormed(s.members[i]);
      RepricedWellFormed(s.members[i], classToo);
      hide EntitiesMatch, NodesMatch, Separate, OthersMatch, WellFormed, Repriced;
      e.Reprice(classToo);
      level := With(level, i, Repriced(s.members[i], classToo));
      Rejoin(s, i);
    }

    method SetStart(e: Schedulable, v: nat, ghost i: nat)
      requires Matches() && At(e, i) && IsU64(v)
      modifies this`level, e`start
      ensures Matches() && level == With(old(level), i, old(level).members[i].(start := v))
    {
      ghost var s := level;
      assert e.Value(s.members[i].place) == s.members[i] && OthersMatch(s, i) && WellFormed(s.members[i]);
      assert WellFormed(s.members[i].(start := v));
      hide WellFormed, EntitiesMatch, NodesMatch, Separate, OthersMatch;
      e.start := v;
      level := With(level, i, s.members[i].(start := v));
      Rejoin(s, i);
    }

    method SetMark(e: Schedulable, on: bool, ghost i: nat)
      requires Matches() && At(e, i)
      modifies this`level, e`onSt
      ensures Matches() && level == With(old(level), i, old(level).members[i].(onSt := on))
    {
      ghost var s := level;
      assert e.Value(s.members[i].place) == s.members[i] && OthersMatch(s, i) && WellFormed(s.members[i]);
      assert WellFormed(s.members[i].(onSt := on));
      hide WellFormed, EntitiesMatch, NodesMatch, Separate, OthersMatch;
      e.onSt := on;
      level := With(level, i, s.members[i].(onSt := on));
      Rejoin(s, i);
    }

    method ClearService(e: Schedulable, ghost i: nat)
      requires Matches() && At(e, i)
      modifies this`level, e`service
      ensures Matches() && level == With(old(level), i, old(level).members[i].(service := 0))
    {
      ghost var s := level;
      assert e.Value(s.members[i].place) == s.members[i] && OthersMatch(s, i) && WellFormed(s.members[i]);
      assert WellFormed(s.members[i].(service := 0));
      hide WellFormed, EntitiesMatch, NodesMatch, Separate, OthersMatch;
      e.service := 0;
      level := With(level, i, s.members[i].(service := 0));
      Rejoin(s, i);
    }

    method StopServing()
      requires Matches()
      modifies this`level, this`inService
      ensures Matches() && inService == null && level == old(level).(inService := None)
    {
      hide WellFormed, NodesMatch;
      inService := null;
      level := level.(inService := None);
    }

    method AddWeight(st: ClassTree, d: int, ghost c: nat)
      requires Matches() && c < CLASSES && st == trees[c]
      modifies this`level, st`wsum
      ensures Matches() && level == Heavier(old(level), c, d)
    {
      hide WellFormed;
      st.wsum := st.wsum + d;
      level := Heavier(level, c, d);
    }

    // ---------- the steps ----------

    /** Apply a pending weight and class; the sums of the old and the new class follow. */
    method UpdateWeightAndPrio(from: ClassTree, e: Schedulable, classToo: bool, ghost i: nat) returns (st: ClassTree)
      requires Matches() && At(e, i) && from == trees[e.prioClass]
      modifies this`level, trees`wsum, e`newWeight, e`orig, e`prioClass, e`changed, e`weight, e`start
      ensures Matches() && level == UpdateWeightPrio(old(level), i, classToo)
      ensures level.members[i].prioClass < CLASSES && st == trees[e.prioClass]
    {
      Look(e, i);
      ghost var s := level;
      ghost var c := e.prioClass;
      UpdateInSteps(s, i, classToo);
      RepricedShaped(s, i, classToo);
      hide Matches, Shaped, Repriced, UpdateWeightPrio;
      st := from;
      if e.changed {
        AddWeight(from, 0 - e.weight, c);
        RepriceEntity(e, classToo, i);
        Look(e, i);
        TreesDiffer(c, e.prioClass);
        st := trees[e.prioClass];
        AddWeight(st, e.weight, e.prioClass);
        if st != from {
          SetStart(e, st.vtime, i);
        }
        Look(e, i);
      }
    }

    /** New finish time, pushed up if it lags. */
    method Retime(e: Schedulable, st: ClassTree, backshifted: bool, ghost i: nat)
      requires Matches() && At(e, i) && st == trees[e.prioClass]
      modifies this`level, e`start, e`finish
      ensures Matches() && level == With(old(level), i, Retimed(old(level), i, backshifted))
    {
      Look(e, i);
      ghost var s := level;
      hide Matches, Shaped, Finished, Backshift;
      Finish(e, e.budget, i);
      if backshifted {
        PushEntityUp(e, st.vtime, i);
      }
    }

    /** New weight, new finish time, and onto the active tree of the class. */
    method UpdateFinTimeEnqueue(e: Schedulable, from: ClassTree, backshifted: bool, ghost i: nat)
      requires Matches() && At(e, i) && from == trees[e.prioClass] && e.tree == null
      modifies this`level, trees`wsum, roots`nodes, e
      ensures Matches() && level == Enqueue(old(level), i, backshifted)
    {
      Look(e, i);
      RepricedShaped(level, i, true);
      EnqueueInSteps(level, i, backshifted);
      hide Matches, Shaped, UpdateWeightPrio, Enqueue, Retimed;
      var st := UpdateWeightAndPrio(from, e, true, i);
      Retime(e, st, backshifted, i);
      Look(e, i);
      Insert(st.active, e, i, Active(e.prioClass));
    }

    method AdmitEntity(st: ClassTree, e: Schedulable, least: nat, ghost i: nat)
      requires Matches() && At(e, i) && st == trees[e.prioClass] && IsU64(least)
      modifies this`level, st`wsum, st.idle`nodes, e`tree, e`start, e`onSt
      ensures Matches() && level == Admit(old(level), i, least)
    {
      Look(e, i);
      LookAtTree(e, i);
      AdmitInSteps(level, i, least);
      hide Matches, Shaped, Gt, Admit;
      if e.tree == st.idle {
        Extract(st.idle, e, i);
        SetStart(e, if Gt(least, e.finish) then least else e.finish, i);
      } else {
        SetStart(e, least, i);
        AddWeight(st, e.weight, e.prioClass);
        SetMark(e, true, i);
      }
    }

    /** An entity that is neither in service nor on its active tree becomes active. */
    method ActivateEntity(e: Schedulable, waited: bool, ghost i: nat)
      requires Valid() && At(e, i) && inService != e && e.tree != trees[e.prioClass].active
      modifies this`level, trees`wsum, roots`nodes, e
      ensures Valid() && level == Activate(old(level), i, waited)
      ensures Takes(Sub64(e.finish, e.start), e.budget, e.weight)
    {
      ActivateTakes(level, i, waited);
      Look(e, i);
      LookAtTree(e, i);
      assert AtHome(level.members[i]);
      ActivateKeeps(level, i, waited);
      var st := trees[e.prioClass];
      var v := st.vtime;
      var backshifted := waited && Gt(v, e.finish);
      var least := if backshifted then e.finish else v;
      AdmitConserves(level, i, least);
      AdmitLeavesTree(level, i, least);
      hide Matches, Good, Shaped, Admit, Enqueue, Gt, Takes, Sub64;
      AdmitEntity(st, e, least, i);
      Look(e, i);
      LookAtTree(e, i);
      UpdateFinTimeEnqueue(e, st, backshifted, i);
      Look(e, i);
    }

    method PullEntity(st: ClassTree, e: Schedulable, ghost i: nat)
      requires Matches() && At(e, i) && st == trees[e.prioClass]
      requires e.tree == st.active || (e.tree == null && inService == e)
      modifies this`level, st.active`nodes, e`tree, e`start, e`finish
      ensures Matches() && level == Pull(old(level), i)
    {
      Look(e, i);
      LookAtTree(e, i);
      hide Matches, Shaped, Delta;
      if inService == e {
        Finish(e, e.service, i);
        Look(e, i);
        SetStart(e, e.finish, i);
        if e.tree != null {
          Extract(st.active, e, i);
        }
      } else {
        Extract(st.active, e, i);
      }
    }

    /** The entity in service, or one on its active tree, is given a new place there. */
    method RequeueEntity(e: Schedulable, ghost i: nat)
      requires Valid() && At(e, i) && (inService == e || e.tree == trees[e.prioClass].active)
      modifies this`level, trees`wsum, roots`nodes, e
      ensures Valid() && level == Requeue(old(level), i)
      ensures Takes(Sub64(e.finish, e.start), e.budget, e.weight)
    {
      RequeueTakes(level, i);
      Look(e, i);
      LookAtTree(e, i);
      assert AtHome(level.members[i]);
      RequeueKeeps(level, i);
      PullConserves(level, i);
      var st := trees[e.prioClass];
      hide Matches, Good, Shaped, Enqueue, Takes, Sub64;
      PullEntity(st, e, i);
      Look(e, i);
      LookAtTree(e, i);
      UpdateFinTimeEnqueue(e, st, false, i);
      Look(e, i);
    }

    method ActivateOrRequeue(e: Schedulable, waited: bool, ghost i: nat)
      requires Valid() && At(e, i)
      modifies this`level, trees`wsum, roots`nodes, e
      ensures Valid() && level == ActivateRequeue(old(level), i, waited)
      ensures Takes(Sub64(e.finish, e.start), e.budget, e.weight)
    {
      Look(e, i);
      LookAtTree(e, i);
      hide Activate, Requeue, Good, Matches, Takes, Sub64;
      if inService == e || e.tree == trees[e.prioClass].active {
        RequeueEntity(e, i);
      } else {
        ActivateEntity(e, waited, i);
      }
    }

    method ForgetEntity(st: ClassTree, e: Schedulable, ghost i: nat, ghost c: nat)
      requires Matches() && At(e, i) && c < CLASSES && st == trees[c]
      modifies this`level, st`wsum, e`onSt
      ensures Matches() && level == Forget(old(level), i, c)
    {
      Look(e, i);
      hide Matches, Shaped;
      SetMark(e, false, i);
      AddWeight(st, 0 - e.weight, c);
    }

    /** The entity leaves the idle tree of `st`, whichever class that is, and its sum. */
    method PutIdleEntity(st: ClassTree, e: Schedulable, ghost i: nat, ghost c: nat)
      requires Valid() && At(e, i) && c < CLASSES && st == trees[c] && e.tree == st.idle
      modifies this`level, st`wsum, st.idle`nodes, e`tree, e`onSt
      ensures Valid() && level == PutIdle(old(level), i)
    {
      Look(e, i);
      assert level.members[i].place == Idle(c);
      PutIdleKeeps(level, i);
      hide Matches, Good, Shaped, Forget;
      Extract(st.idle, e, i);
      ForgetEntity(st, e, i, c);
    }

    method Stop(e: Schedulable, ghost i: nat)
      requires Matches() && At(e, i)
      modifies this`level, this`inService, e`finish, e`service
      ensures Matches() && level == Stopped(old(level), i)
    {
      Look(e, i);
      LookAtTree(e, i);
      hide Matches, Shaped, Delta;
      var serving := inService == e;
      Finish(e, e.service, i);
      if serving {
        StopServing();
      } else {
        ClearService(e, i);
      }
    }

    method LeaveTree(st: ClassTree, e: Schedulable, ghost i: nat)
      requires Matches() && At(e, i) && st == trees[e.prioClass]
      modifies this`level, this`inService, st.active`nodes, st.idle`nodes, e`tree, e`finish, e`service
      ensures Matches() && level == Leave(old(level), i)
    {
      Look(e, i);
      LookAtTree(e, i);
      ghost var s := level;
      LeaveInSteps(s, i);
      hide Matches, Shaped, Leave, Stopped;
      var serving := inService == e;
      Stop(e, i);
      LookAtTree(e, i);
      if e.tree == st.active {
        Extract(st.active, e, i);
      } else if !serving && e.tree == st.idle {
        Extract(st.idle, e, i);
      }
    }

    /** The entity stops being active: forgotten, or kept on the idle tree while it finishes late. */
    method DeactivateEntity(e: Schedulable, intoIdle: bool, ghost i: nat) returns (was: bool)
      requires Valid() && At(e, i)
      modifies this`level, this`inService, trees`wsum, roots`nodes, e
      ensures Valid() && level == Deactivate(old(level), i, intoIdle) && was == old(e.onSt)
      ensures was ==> Takes(Sub64(e.finish, e.start), old(e.service), old(e.weight))
    {
      Look(e, i);
      LookAtTree(e, i);
      assert AtHome(level.members[i]);
      DeactivateKeeps(level, i, intoIdle);
      if !e.onSt {
        return false;
      }
      DeactivateCharges(level, i, intoIdle);
      LeaveShaped(level, i);
      LeaveIsOff(level, i);
      var st := trees[e.prioClass];
      hide Matches, Good, Shaped, Leave, Forget, Gt, Takes, Sub64, AllAtHome;
      LeaveTree(st, e, i);
      Look(e, i);
      LookAtTree(e, i);
      if !intoIdle || !Gt(e.finish, st.vtime) {
        ForgetEntity(st, e, i, e.prioClass);
      } else {
        Insert(st.idle, e, i, Idle(e.prioClass));
      }
      Look(e, i);
      was := true;
    }

    /** The next entity starts being served, and leaves its tree unless other children of it wait. */
    method SetInServiceEntity(e: Schedulable, extract: bool, ghost i: nat)
      requires Valid() && At(e, i) && inService == null && e.tree == trees[e.prioClass].active
      modifies this`level, this`inService, roots`nodes, e`tree
      ensures Valid() && inService == e && level == SetInService(old(level), i, extract)
      ensures e.tree == null <==> extract
    {
      Look(e, i);
      LookAtTree(e, i);
      QuietKeeps(level, EvSetInService(i, extract));
      hide Good, WellFormed, NodesMatch;
      inService := e;
      level := level.(inService := Some(i));
      if extract {
        Extract(trees[e.prioClass].active, e, i);
      }
    }
  }
}
