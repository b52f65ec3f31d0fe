/** Entities moving between the active and idle trees of three priority classes, and the weight sum that
 * each class keeps of the entities it holds. One scheduling level, with any number of entities. */
module BfqWeights {
  import opened Options
  import opened BfqTree

  const CLASSES: nat := 3
  const MIN_WEIGHT: nat := 1
  const MAX_WEIGHT: nat := 1000
  const SERVICE_UNIT: nat := 0x40_0000

  /** The tree an entity is on, with the class whose tree it is. */
  datatype Place = Off | Active(of: nat) | Idle(of: nat)

  /** `changed` says that the pending weight and class are yet to be applied. */
  datatype Member = Member(weight: nat, orig: nat, newWeight: int, prioClass: nat, newClass: nat, changed: bool,
                           isQueue: bool, coeff: nat, place: Place, onSt: bool,
                           start: nat, finish: nat, budget: nat, service: nat)

  datatype Level = Level(members: seq<Member>, wsum: seq<int>, vtime: seq<nat>, inService: Option<nat>)

  predicate WellFormed(m: Member) {
    && m.weight >= 1 && m.orig >= 1 && m.coeff >= 1 && m.prioClass < CLASSES && m.newClass < CLASSES
    && IsU64(m.start) && IsU64(m.finish)
    && (!m.isQueue ==> m.coeff == 1 && m.newClass == m.prioClass)
  }

  predicate Shaped(s: Level) {
    && |s.wsum| == CLASSES && |s.vtime| == CLASSES
    && (forall c | 0 <= c < CLASSES :: IsU64(s.vtime[c]))
    && (forall i | 0 <= i < |s.members| :: WellFormed(s.members[i]))
  }

  // ---------- timestamps ----------

  function Add64(a: nat, b: nat): nat { (a + b) % RANGE }

  /** Service mapped into virtual time; the shift drops the bits beyond 64. */
  function Delta(service: nat, weight: nat): nat
    requires weight >= 1
  {
    service * SERVICE_UNIT % RANGE / weight
  }

  function Finished(m: Member, service: nat): Member
    requires m.weight >= 1
  {
    m.(finish := Add64(m.start, Delta(service, m.weight)))
  }

  // ---------- applying a pending weight or class ----------

  function Clamp(w: int): nat {
    if w < MIN_WEIGHT then MIN_WEIGHT else if w > MAX_WEIGHT then MAX_WEIGHT else w
  }

  function Repriced(m: Member, classToo: bool): Member {
    var m := if m.newWeight != m.orig then m.(newWeight := Clamp(m.newWeight), orig := Clamp(m.newWeight)) else m;
    var m := if m.isQueue && classToo then m.(prioClass := m.newClass) else m;
    var m := if !m.isQueue || m.prioClass == m.newClass then m.(changed := false) else m;
    m.(weight := m.orig * m.coeff)
  }

  function UpdateWeightPrio(s: Level, i: nat, classToo: bool): Level
    requires Shaped(s) && i < |s.members|
  {
    var m := s.members[i];
    if !m.changed then s else
      var w := s.wsum[m.prioClass := s.wsum[m.prioClass] - m.weight];
      var m' := Repriced(m, classToo);
      var w' := w[m'.prioClass := w[m'.prioClass] + m'.weight];
      var m'' := if m'.prioClass != m.prioClass then m'.(start := s.vtime[m'.prioClass]) else m';
      s.(members := s.members[i := m''], wsum := w')
  }

  // ---------- activation, requeueing, deactivation ----------

  function Backshift(m: Member, vtime: nat): Member
    requires m.coeff >= 1
  {
    if Gt(vtime, m.finish) then
      var d: nat := Sub64(vtime, m.finish);
      var d := if m.isQueue then d / m.coeff else d;
      m.(start := Add64(m.start, d), finish := Add64(m.finish, d))
    else m
  }

  function Enqueue(s: Level, i: nat, backshifted: bool): Level
    requires Shaped(s) && i < |s.members|
  {
    RepricedShaped(s, i, true);
    var s := UpdateWeightPrio(s, i, true);
    var m := Finished(s.members[i], s.members[i].budget);
    var m := if backshifted then Backshift(m, s.vtime[m.prioClass]) else m;
    s.(members := s.members[i := m.(place := Active(m.prioClass))])
  }

  /** Off the idle tree with its old sum, or newly counted; in both cases with a new start. */
  function Admit(s: Level, i: nat, least: nat): Level
    requires Shaped(s) && i < |s.members|
  {
    var m := s.members[i];
    if m.place == Idle(m.prioClass) then
      s.(members := s.members[i := m.(place := Off, start := if Gt(least, m.finish) then least else m.finish)])
    else
      s.(members := s.members[i := m.(start := least, onSt := true)],
         wsum := s.wsum[m.prioClass := s.wsum[m.prioClass] + m.weight])
  }

  function Activate(s: Level, i: nat, waited: bool): Level
    requires Shaped(s) && i < |s.members|
  {
    var m := s.members[i];
    var v := s.vtime[m.prioClass];
    var backshifted := waited && Gt(v, m.finish);
    Enqueue(Admit(s, i, if backshifted then m.finish else v), i, backshifted)
  }

  /** Off its tree if on one; the entity in service has its start moved past what it received. */
  function Pull(s: Level, i: nat): Level
    requires Shaped(s) && i < |s.members|
  {
    var f := Finished(s.members[i], s.members[i].service);
    var m := if s.inService == Some(i) then f.(start := f.finish) else s.members[i];
    s.(members := s.members[i := m.(place := Off)])
  }

  function Requeue(s: Level, i: nat): Level
    requires Shaped(s) && i < |s.members|
  {
    Enqueue(Pull(s, i), i, false)
  }

  function ActivateRequeue(s: Level, i: nat, waited: bool): Level
    requires Shaped(s) && i < |s.members|
  {
    if s.inService == Some(i) || s.members[i].place == Active(s.members[i].prioClass) then Requeue(s, i)
    else Activate(s, i, waited)
  }

  /** No longer counted by the class `c` that it is removed from. */
  function Forget(s: Level, i: nat, c: nat): Level
    requires Shaped(s) && i < |s.members| && c < CLASSES
  {
    var m := s.members[i];
    s.(members := s.members[i := m.(onSt := false)], wsum := s.wsum[c := s.wsum[c] - m.weight])
  }

  /** Charged for its service and off its tree; no longer in service. */
  function Leave(s: Level, i: nat): Level
    requires Shaped(s) && i < |s.members|
  {
    var serving := s.inService == Some(i);
    var m := Finished(s.members[i], s.members[i].service);
    var m := if serving then m else m.(service := 0);
    var on := m.place == Active(m.prioClass) || (!serving && m.place == Idle(m.prioClass));
    var m := if on then m.(place := Off) else m;
    s.(members := s.members[i := m], inService := if serving then None else s.inService)
  }

  function Deactivate(s: Level, i: nat, intoIdle: bool): Level
    requires Shaped(s) && i < |s.members|
  {
    if !s.members[i].onSt then s else
      var s := Leave(s, i);
      var m := s.members[i];
      if !intoIdle || !Gt(m.finish, s.vtime[m.prioClass]) then Forget(s, i, m.prioClass)
      else s.(members := s.members[i := m.(place := Idle(m.prioClass))])
  }

  /** Dropped from the idle tree it is on, and from the sum of that tree's class. */
  function PutIdle(s: Level, i: nat): Level
    requires Shaped(s) && i < |s.members| && s.members[i].place.Idle? && s.members[i].place.of < CLASSES
  {
    var m := s.members[i];
    Forget(s.(members := s.members[i := m.(place := Off)]), i, m.place.of)
  }

  /** The next entity starts being served; it leaves its tree unless other children of it wait. */
  function SetInService(s: Level, i: nat, extract: bool): Level
    requires Shaped(s) && i < |s.members|
  {
    var m := s.members[i];
    s.(inService := Some(i), members := s.members[i := if extract then m.(place := Off) else m])
  }

  /** The weight, the class or the raising factor to be applied later; a group has only a weight. */
  function Reprioritise(s: Level, i: nat, newWeight: int, newClass: nat, coeff: nat): Level
    requires Shaped(s) && i < |s.members|
  {
    var m := s.members[i].(newWeight := newWeight, changed := true);
    s.(members := s.members[i := if m.isQueue then m.(newClass := newClass, coeff := coeff) else m])
  }

  function Charge(s: Level, i: nat, service: nat, budget: nat): Level
    requires Shaped(s) && i < |s.members|
  {
    s.(members := s.members[i := s.members[i].(service := service, budget := budget)])
  }

  // ---------- runs ----------

  datatype Event =
    | EvActivateRequeue(i: nat, waited: bool)
    | EvDeactivate(i: nat, intoIdle: bool)
    | EvPutIdle(i: nat)
    | EvUpdateWeight(i: nat)
    | EvSetInService(i: nat, extract: bool)
    | EvResetInService
    | EvReprioritise(i: nat, newWeight: int, newClass: nat, coeff: nat)
    | EvCharge(i: nat, service: nat, budget: nat)
    | EvVtime(c: nat, v: nat)

  /** What the callers guarantee. */
  predicate Enabled(s: Level, e: Event)
    requires Shaped(s)
  {
    match e
    case EvActivateRequeue(i, _) => i < |s.members|
    case EvDeactivate(i, _) => i < |s.members|
    case EvPutIdle(i) => i < |s.members| && s.members[i].place.Idle? && s.members[i].place.of < CLASSES
    case EvUpdateWeight(i) => i < |s.members| && s.members[i].onSt
    case EvSetInService(i, _) => i < |s.members| && s.inService.None? && s.members[i].place.Active?
    case EvResetInService =>
      s.inService.Some? && s.inService.value < |s.members| && s.members[s.inService.value].place != Off
    case EvReprioritise(i, _, c, k) => i < |s.members| && c < CLASSES && k >= 1
    case EvCharge(i, _, _) => i < |s.members|
    case EvVtime(c, v) => c < CLASSES && IsU64(v)
  }

  function Apply(s: Level, e: Event): Level
    requires Shaped(s) && Enabled(s, e)
  {
    match e
    case EvActivateRequeue(i, w) => ActivateRequeue(s, i, w)
    case EvDeactivate(i, idle) => Deactivate(s, i, idle)
    case EvPutIdle(i) => PutIdle(s, i)
    case EvUpdateWeight(i) => UpdateWeightPrio(s, i, false)
    case EvSetInService(i, x) => SetInService(s, i, x)
    case EvResetInService => s.(inService := None)
    case EvReprioritise(i, w, c, k) => Reprioritise(s, i, w, c, k)
    case EvCharge(i, a, b) => Charge(s, i, a, b)
    case EvVtime(c, v) => s.(vtime := s.vtime[c := v])
  }

  // ---------- the accounts ----------

  function Share(m: Member, c: nat): nat {
    if m.onSt && m.prioClass == c then m.weight else 0
  }

  /** The weights of the entities that class `c` holds. */
  function Held(ms: seq<Member>, c: nat): nat {
    if ms == [] then 0 else Share(ms[0], c) + Held(ms[1..], c)
  }

  ghost predicate Balanced(s: Level) {
    |s.wsum| == CLASSES && forall c: nat | c < CLASSES :: s.wsum[c] == Held(s.members, c)
  }

  /** An entity counts exactly while it is on a tree or in service. */
  ghost predicate Marked(s: Level) {
    && (forall i: nat | i < |s.members| :: s.members[i].onSt <==> s.members[i].place != Off || s.inService == Some(i))
    && (s.inService.Some? ==> s.inService.value < |s.members| && !s.members[s.inService.value].place.Idle?)
  }

  /** On no tree, or on one of its own class. */
  predicate AtHome(m: Member) {
    m.place != Off ==> m.place.of == m.prioClass
  }

  ghost predicate AllAtHome(s: Level) {
    forall i: nat | i < |s.members| :: AtHome(s.members[i])
  }

  lemma {:induction false} HeldUpdate(ms: seq<Member>, i: nat, m: Member, c: nat)
    requires i < |ms|
    ensures Held(ms[i := m], c) == Held(ms, c) - Share(ms[i], c) + Share(m, c)
  {
    hide Share;
    if i == 0 {
      assert ms[i := m][1..] == ms[1..];
    } else {
      assert ms[i := m][1..] == ms[1..][i - 1 := m];
      HeldUpdate(ms[1..], i - 1, m, c);
    }
  }

  /** A step that touches entity `i` alone keeps the books when each class sum moves by what the entity's
   * share moves. */
  ghost predicate Conserves(s: Level, s': Level, i: nat)
    requires i < |s.members| && |s.wsum| == CLASSES
  {
    && |s'.members| == |s.members| && s'.members == s.members[i := s'.members[i]] && |s'.wsum| == CLASSES
    && forall c: nat | c < CLASSES :: s'.wsum[c] - Share(s'.members[i], c) == s.wsum[c] - Share(s.members[i], c)
  }

  lemma ConservedBalance(s: Level, s': Level, i: nat)
    requires Balanced(s) && i < |s.members| && Conserves(s, s', i)
    ensures Balanced(s')
  {
    forall c: nat | c < CLASSES ensures s'.wsum[c] == Held(s'.members, c) {
      HeldUpdate(s.members, i, s'.members[i], c);
    }
  }

  lemma RepricedShaped(s: Level, i: nat, classToo: bool)
    requires Shaped(s) && i < |s.members|
    ensures Shaped(UpdateWeightPrio(s, i, classToo))
  {
    var m := s.members[i];
    var m' := Repriced(m, classToo);
    assert m'.weight == m'.orig * m'.coeff >= 1 by {
      MulPositive(m'.orig, m'.coeff);
    }
  }

  lemma MulPositive(a: nat, b: nat)
    requires a >= 1 && b >= 1
    ensures a * b >= 1
  {
  }
}
