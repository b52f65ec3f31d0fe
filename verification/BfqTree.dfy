/** Timestamps that wrap, and the search for an eligible entity in a tree ordered by finish time and
 * augmented with subtree minima of start times. */
module BfqTree {
  import Seqs
  import opened Options

  // ---------- wrapping timestamps ----------

  const RANGE: int := 0x1_0000_0000_0000_0000
  const HALF: int := 0x8000_0000_0000_0000

  /** `a - b` as an unsigned 64-bit number, for 64-bit `a` and `b`. */
  function Sub64(a: int, b: int): int {
    if a < b then a - b + RANGE else a - b
  }

  /** `a` is later than `b`: their difference, taken as signed, is positive. */
  predicate Gt(a: int, b: int) {
    0 < Sub64(a, b) < HALF
  }

  predicate IsU64(a: int) { 0 <= a < RANGE }

  /** `a` lies in the half range that starts at `base`. */
  predicate InWindow(base: int, a: int) {
    IsU64(base) && IsU64(a) && Sub64(a, base) < HALF
  }

  /** Inside one half range the comparison is that of the distances from its start, wherever the
   * range itself wraps around. */
  lemma GtIsOrder(base: int, a: int, b: int)
    requires InWindow(base, a) && InWindow(base, b)
    ensures Gt(a, b) <==> Sub64(b, base) < Sub64(a, base)
    ensures !Gt(a, b) && !Gt(b, a) ==> a == b
  {
  }

  // ---------- trees ----------

  datatype Entity<T> = Entity(start: int, finish: int, id: T)

  datatype Tree<T> = Leaf | Fork(left: Tree<T>, entity: Entity<T>, right: Tree<T>)

  function InOrder<T>(t: Tree<T>): seq<Entity<T>> {
    match t
    case Leaf => []
    case Fork(l, e, r) => InOrder(l) + [e] + InOrder(r)
  }

  /** The earlier of two timestamps, as the code picks it. */
  function Earlier(a: int, b: int): int {
    if Gt(a, b) then b else a
  }

  /** The minimum start of a non-empty tree, computed the way a node is refreshed: its own start, then
   * the right subtree, then the left. */
  function MinStart<T>(t: Tree<T>): int
    requires t.Fork?
  {
    var a := if t.right.Fork? then Earlier(t.entity.start, MinStart(t.right)) else t.entity.start;
    if t.left.Fork? then Earlier(a, MinStart(t.left)) else a
  }

  ghost predicate AllInWindow<T>(t: Tree<T>, base: int) {
    t.Fork? ==> InWindow(base, t.entity.start) && AllInWindow(t.left, base) && AllInWindow(t.right, base)
  }

  /** `e` may be served at virtual time `v`. */
  predicate Eligible<T>(e: Entity<T>, v: int) {
    !Gt(e.start, v)
  }

  predicate HasEligible<T>(t: Tree<T>, v: int) {
    t.Fork? && (Eligible(t.entity, v) || HasEligible(t.left, v) || HasEligible(t.right, v))
  }

  lemma {:induction false} MinInWindow<T>(t: Tree<T>, base: int)
    requires t.Fork? && AllInWindow(t, base)
    ensures InWindow(base, MinStart(t))
  {
    if t.left.Fork? {
      MinInWindow(t.left, base);
    }
    if t.right.Fork? {
      MinInWindow(t.right, base);
    }
  }

  lemma EarlierDecides(base: int, a: int, b: int, v: int)
    requires InWindow(base, a) && InWindow(base, b) && InWindow(base, v)
    ensures !Gt(Earlier(a, b), v) <==> !Gt(a, v) || !Gt(b, v)
  {
    GtIsOrder(base, a, b);
    GtIsOrder(base, a, v);
    GtIsOrder(base, b, v);
  }

  /** The stored minimum tells exactly whether the subtree holds an eligible entity. */
  lemma {:induction false} MinTellsEligible<T>(t: Tree<T>, base: int, v: int)
    requires t.Fork? && AllInWindow(t, base) && InWindow(base, v)
    ensures !Gt(MinStart(t), v) <==> HasEligible(t, v)
  {
    var s := t.entity.start;
    if t.right.Fork? {
      MinTellsEligible(t.right, base, v);
      MinInWindow(t.right, base);
      EarlierDecides(base, s, MinStart(t.right), v);
    }
    var a := if t.right.Fork? then Earlier(s, MinStart(t.right)) else s;
    if t.left.Fork? {
      MinTellsEligible(t.left, base, v);
      MinInWindow(t.left, base);
      EarlierDecides(base, a, MinStart(t.left), v);
    }
  }

  ghost function Entities<T>(t: Tree<T>): set<Entity<T>> {
    match t
    case Leaf => {}
    case Fork(l, e, r) => Entities(l) + {e} + Entities(r)
  }

  lemma EarlierIsLeast(base: int, a: int, b: int, x: int)
    requires InWindow(base, a) && InWindow(base, b) && InWindow(base, x)
    ensures !Gt(a, x) || !Gt(b, x) ==> !Gt(Earlier(a, b), x)
  {
    EarlierDecides(base, a, b, x);
  }

  lemma {:induction false} StartInWindow<T>(t: Tree<T>, base: int, e: Entity<T>)
    requires AllInWindow(t, base) && e in Entities(t)
    ensures InWindow(base, e.start)
  {
    if e in Entities(t.left) {
      StartInWindow(t.left, base, e);
    } else if e in Entities(t.right) {
      StartInWindow(t.right, base, e);
    }
  }

  lemma {:induction false} NoneEarlier<T>(t: Tree<T>, base: int, e: Entity<T>)
    requires AllInWindow(t, base) && e in Entities(t)
    ensures !Gt(MinStart(t), e.start)
  {
    var Fork(l, x, r) := t;
    var a := if r.Fork? then Earlier(x.start, MinStart(r)) else x.start;
    StartInWindow(t, base, e);
    if e in Entities(l) {
      NoneEarlier(l, base, e);
    } else if e in Entities(r) {
      NoneEarlier(r, base, e);
    }
    if r.Fork? {
      MinInWindow(r, base);
      EarlierIsLeast(base, x.start, MinStart(r), e.start);
    }
    if l.Fork? {
      MinInWindow(l, base);
      EarlierIsLeast(base, a, MinStart(l), e.start);
    }
  }

  lemma {:induction false} MinAttained<T>(t: Tree<T>) returns (e: Entity<T>)
    requires t.Fork?
    ensures e in Entities(t) && e.start == MinStart(t)
  {
    hide Gt;
    e := t.entity;
    if t.right.Fork? && MinStart(t.right) == MinStart(t) {
      e := MinAttained(t.right);
    } else if t.left.Fork? && MinStart(t.left) == MinStart(t) {
      e := MinAttained(t.left);
    }
  }

  /** The stored minimum is the start of some entity of the subtree, and no entity starts earlier. */
  lemma MinIsLeast<T>(t: Tree<T>, base: int)
    requires t.Fork? && AllInWindow(t, base)
    ensures exists e :: e in Entities(t) && e.start == MinStart(t)
    ensures forall e | e in Entities(t) :: !Gt(MinStart(t), e.start)
  {
    var least := MinAttained(t);
    forall e | e in Entities(t) ensures !Gt(MinStart(t), e.start) {
      NoneEarlier(t, base, e);
    }
  }

  // ---------- the search ----------

  /** Go left while the left side has an eligible entity; go right only if nothing was found yet. */
  function Search<T>(t: Tree<T>, v: int, found: Option<Entity<T>>): Option<Entity<T>> {
    match t
    case Leaf => found
    case Fork(l, e, r) =>
      var found' := if Eligible(e, v) then Some(e) else found;
      if HasEligible(l, v) then Search(l, v, found')
      else if found'.Some? then found'
      else Search(r, v, None)
  }

  /** The first eligible entity in tree order. */
  function Leftmost<T>(t: Tree<T>, v: int): Option<Entity<T>> {
    match t
    case Leaf => None
    case Fork(l, e, r) =>
      if HasEligible(l, v) then Leftmost(l, v)
      else if Eligible(e, v) then Some(e)
      else Leftmost(r, v)
  }

  /** The first eligible entity of a sequence. */
  function FirstEligible<T>(s: seq<Entity<T>>, v: int): Option<Entity<T>> {
    if s == [] then None else if Eligible(s[0], v) then Some(s[0]) else FirstEligible(s[1..], v)
  }

  lemma {:induction false} FirstAppend<T>(a: seq<Entity<T>>, b: seq<Entity<T>>, v: int)
    ensures FirstEligible(a + b, v) == if FirstEligible(a, v).Some? then FirstEligible(a, v) else FirstEligible(b, v)
  {
    if a == [] {
      assert a + b == b;
    } else {
      FirstAppend(a[1..], b, v);
      assert (a + b)[1..] == a[1..] + b;
    }
  }

  /** `Leftmost` is what its name says: the first eligible entity of the tree's sequence. */
  lemma {:induction false} LeftmostIsFirst<T>(t: Tree<T>, v: int)
    ensures Leftmost(t, v) == FirstEligible(InOrder(t), v)
    ensures Leftmost(t, v).Some? <==> HasEligible(t, v)
  {
    match t
    case Leaf =>
    case Fork(l, e, r) =>
      LeftmostIsFirst(l, v);
      LeftmostIsFirst(r, v);
      FirstAppend(InOrder(l) + [e], InOrder(r), v);
      FirstAppend(InOrder(l), [e], v);
      assert [e][1..] == [];
  }

  /** The search finds an eligible entity of the tree whenever there is one, and none otherwise. */
  lemma {:induction false} SearchFinds<T>(t: Tree<T>, v: int, found: Option<Entity<T>>)
    requires found.Some? ==> Eligible(found.value, v)
    ensures Search(t, v, found).Some? <==> found.Some? || HasEligible(t, v)
    ensures var r := Search(t, v, found);
            r.Some? ==> Eligible(r.value, v) && (r == found || r.value in Entities(t))
  {
    match t
    case Leaf =>
    case Fork(l, e, r) =>
      var found' := if Eligible(e, v) then Some(e) else found;
      SearchFinds(l, v, found');
      SearchFinds(r, v, None);
  }

  /** On the way to the first eligible entity, the path never turns right below an eligible one. */
  predicate Straight<T>(t: Tree<T>, v: int, passed: bool) {
    match t
    case Leaf => true
    case Fork(l, e, r) =>
      if HasEligible(l, v) then Straight(l, v, passed || Eligible(e, v))
      else Eligible(e, v) || (!passed && Straight(r, v, false))
  }

  lemma {:induction false} LeftmostMember<T>(t: Tree<T>, v: int)
    requires HasEligible(t, v)
    ensures Leftmost(t, v).Some? && Leftmost(t, v).value in Entities(t)
  {
    LeftmostIsFirst(t, v);
    if HasEligible(t.left, v) {
      LeftmostMember(t.left, v);
    } else if !Eligible(t.entity, v) {
      LeftmostMember(t.right, v);
    }
  }

  /** No entity occurs twice. */
  ghost predicate Distinct<T>(t: Tree<T>) {
    t.Fork? ==>
      && Distinct(t.left) && Distinct(t.right)
      && Entities(t.left) !! Entities(t.right)
      && t.entity !in Entities(t.left) && t.entity !in Entities(t.right)
  }

  /** Exactly when the search returns the first eligible entity: if and only if the path to it is
   * straight. */
  lemma {:induction false} SearchIsLeftmostIff<T>(t: Tree<T>, v: int, found: Option<Entity<T>>)
    requires HasEligible(t, v) && Distinct(t)
    requires found.Some? ==> Eligible(found.value, v) && found.value !in Entities(t)
    ensures Search(t, v, found) == Leftmost(t, v) <==> Straight(t, v, found.Some?)
  {
    var Fork(l, e, r) := t;
    var found' := if Eligible(e, v) then Some(e) else found;
    LeftmostMember(t, v);
    if HasEligible(l, v) {
      SearchIsLeftmostIff(l, v, found');
    } else if !Eligible(e, v) && found.None? {
      SearchIsLeftmostIff(r, v, None);
    }
  }

  // ---------- ordered trees ----------

  /** Finish times do not decrease along the sequence. */
  ghost predicate FinishOrdered<T>(s: seq<Entity<T>>, base: int) {
    && (forall i | 0 <= i < |s| :: InWindow(base, s[i].finish))
    && forall i, j | 0 <= i < j < |s| :: !Gt(s[i].finish, s[j].finish)
  }

  /** In such a sequence the first eligible entity finishes no later than any other eligible one. */
  lemma {:induction false} FirstFinishesFirst<T>(s: seq<Entity<T>>, v: int, base: int, i: nat)
    requires FinishOrdered(s, base) && i < |s| && Eligible(s[i], v)
    ensures FirstEligible(s, v).Some? && !Gt(FirstEligible(s, v).value.finish, s[i].finish)
  {
    if !Eligible(s[0], v) {
      assert s[1..][i - 1] == s[i];
      assert forall j | 0 <= j < |s[1..]| :: s[1..][j] == s[j + 1];
      FirstFinishesFirst(s[1..], v, base, i - 1);
    }
  }

  /** Start times do not decrease along the sequence either. */
  ghost predicate StartOrdered<T>(s: seq<Entity<T>>) {
    forall i, j | 0 <= i < j < |s| :: !Gt(s[i].start, s[j].start)
  }

  ghost predicate StartsInWindow<T>(s: seq<Entity<T>>, base: int) {
    forall i | 0 <= i < |s| :: InWindow(base, s[i].start)
  }

  lemma EligibleBefore<T>(s: seq<Entity<T>>, v: int, base: int, i: nat, j: nat)
    requires StartOrdered(s) && StartsInWindow(s, base) && InWindow(base, v)
    requires i < j < |s| && Eligible(s[j], v)
    ensures Eligible(s[i], v)
  {
    GtIsOrder(base, s[i].start, s[j].start);
    GtIsOrder(base, s[i].start, v);
    GtIsOrder(base, s[j].start, v);
  }

  /** When starts and finishes agree in order, whatever is left of an eligible entity is eligible. */
  lemma {:induction false} StartOrderedStraight<T>(t: Tree<T>, v: int, passed: bool, base: int)
    requires StartOrdered(InOrder(t)) && StartsInWindow(InOrder(t), base) && InWindow(base, v) && HasEligible(t, v)
    ensures Straight(t, v, passed)
  {
    var Fork(l, e, r) := t;
    var s, n := InOrder(t), |InOrder(l)|;
    assert forall i | 0 <= i < n :: InOrder(l)[i] == s[i];
    assert s[n] == e;
    if HasEligible(l, v) {
      StartOrderedStraight(l, v, passed || Eligible(e, v), base);
    } else if HasEligible(r, v) {
      LeftmostIsFirst(r, v);
      var k := FirstAt(InOrder(r), v);
      assert s[n + 1 + k] == InOrder(r)[k];
      EligibleBefore(s, v, base, n, n + 1 + k);
    }
  }

  lemma {:induction false} FirstAt<T>(s: seq<Entity<T>>, v: int) returns (k: nat)
    requires FirstEligible(s, v).Some?
    ensures k < |s| && Eligible(s[k], v) && FirstEligible(s, v) == Some(s[k])
  {
    if Eligible(s[0], v) {
      k := 0;
    } else {
      var j := FirstAt(s[1..], v);
      k := j + 1;
    }
  }

  lemma {:induction false} IndexOf<T>(t: Tree<T>, e: Entity<T>) returns (i: nat)
    requires e in Entities(t)
    ensures i < |InOrder(t)| && InOrder(t)[i] == e
  {
    var n := |InOrder(t.left)|;
    if e in Entities(t.left) {
      i := IndexOf(t.left, e);
    } else if e in Entities(t.right) {
      var j := IndexOf(t.right, e);
      i := n + 1 + j;
      assert InOrder(t)[n + 1..] == InOrder(t.right);
    } else {
      i := n;
    }
  }

  /** The entity found is eligible and no eligible one finishes earlier. */
  ghost predicate LeastFinish<T>(t: Tree<T>, v: int, found: Option<Entity<T>>) {
    found.Some? && Eligible(found.value, v)
    && forall e | e in Entities(t) && Eligible(e, v) :: !Gt(found.value.finish, e.finish)
  }

  lemma LeftmostIsLeast<T>(t: Tree<T>, v: int, base: int)
    requires FinishOrdered(InOrder(t), base) && HasEligible(t, v)
    ensures LeastFinish(t, v, Leftmost(t, v))
  {
    LeftmostIsFirst(t, v);
    var k := FirstAt(InOrder(t), v);
    forall e | e in Entities(t) && Eligible(e, v) ensures !Gt(Leftmost(t, v).value.finish, e.finish) {
      var i := IndexOf(t, e);
      FirstFinishesFirst(InOrder(t), v, base, i);
    }
  }

  /** A straight path is enough, also with equal entities. */
  lemma {:induction false} StraightSearch<T>(t: Tree<T>, v: int, found: Option<Entity<T>>)
    requires HasEligible(t, v) && Straight(t, v, found.Some?)
    ensures Search(t, v, found) == Leftmost(t, v)
  {
    var Fork(l, e, r) := t;
    if HasEligible(l, v) {
      StraightSearch(l, v, if Eligible(e, v) then Some(e) else found);
    } else if !Eligible(e, v) {
      StraightSearch(r, v, None);
    }
  }

  /** The promised result: on a tree ordered by finish time whose starts come in the same order, the
   * search returns an eligible entity with the least finish time. */
  lemma SearchFinishesFirst<T>(t: Tree<T>, v: int, base: int)
    requires FinishOrdered(InOrder(t), base) && HasEligible(t, v)
    requires StartOrdered(InOrder(t)) && StartsInWindow(InOrder(t), base) && InWindow(base, v)
    ensures LeastFinish(t, v, Search(t, v, None))
  {
    LeftmostIsLeast(t, v, base);
    StartOrderedStraight(t, v, false, base);
    StraightSearch(t, v, None);
  }

  ghost predicate NoTies<T>(s: seq<Entity<T>>) {
    forall i, j | 0 <= i < j < |s| :: s[i].finish != s[j].finish
  }

  lemma SameFinishSame<T>(t: Tree<T>, a: Entity<T>, b: Entity<T>)
    requires NoTies(InOrder(t)) && a in Entities(t) && b in Entities(t) && a.finish == b.finish
    ensures a == b
  {
    var i := IndexOf(t, a);
    var j := IndexOf(t, b);
  }

  lemma NoTiesAcross<T>(t: Tree<T>, e: Entity<T>)
    requires t.Fork? && NoTies(InOrder(t))
    ensures !(e in Entities(t.left) && e in Entities(t.right))
    ensures e == t.entity ==> e !in Entities(t.left) && e !in Entities(t.right)
  {
    var s, n := InOrder(t), |InOrder(t.left)|;
    assert s[n] == t.entity && s[..n] == InOrder(t.left) && s[n + 1..] == InOrder(t.right);
    if e in Entities(t.left) {
      var i := IndexOf(t.left, e);
      assert s[i].finish == e.finish;
    }
    if e in Entities(t.right) {
      var j := IndexOf(t.right, e);
      assert s[n + 1 + j].finish == e.finish;
    }
  }

  lemma {:induction false} NoTiesDistinct<T>(t: Tree<T>)
    requires NoTies(InOrder(t))
    ensures Distinct(t)
  {
    if t.Fork? {
      var s, n := InOrder(t), |InOrder(t.left)|;
      assert s[..n] == InOrder(t.left) && s[n + 1..] == InOrder(t.right);
      NoTiesDistinct(t.left);
      NoTiesDistinct(t.right);
      NoTiesAcross(t, t.entity);
      forall e | e in Entities(t.left) ensures e !in Entities(t.right) {
        NoTiesAcross(t, e);
      }
    }
  }

  /** On the way to the first eligible entity, which finishes at `f`, the path turns right below an eligible
   * one only if the last such entity finishes at `f`, too. */
  predicate Tied<T>(t: Tree<T>, v: int, passed: Option<Entity<T>>, f: int) {
    match t
    case Leaf => true
    case Fork(l, e, r) =>
      if HasEligible(l, v) then Tied(l, v, if Eligible(e, v) then Some(e) else passed, f)
      else if Eligible(e, v) then true
      else if passed.Some? then passed.value.finish == f
      else Tied(r, v, None, f)
  }

  lemma {:induction false} TiedSearch<T>(t: Tree<T>, v: int, found: Option<Entity<T>>, f: int)
    requires HasEligible(t, v) && Leftmost(t, v).Some? && Leftmost(t, v).value.finish == f
    ensures Search(t, v, found).Some? && (Search(t, v, found).value.finish == f <==> Tied(t, v, found, f))
  {
    var Fork(l, e, r) := t;
    LeftmostIsFirst(l, v);
    LeftmostIsFirst(r, v);
    if HasEligible(l, v) {
      TiedSearch(l, v, if Eligible(e, v) then Some(e) else found, f);
    } else if !Eligible(e, v) && found.None? {
      TiedSearch(r, v, None, f);
    }
  }

  /** Exactly when it does, on every tree ordered by finish time: if and only if the path to the first
   * eligible entity turns right only below entities that finish at the same time. */
  lemma SearchFinishesFirstIff<T>(t: Tree<T>, v: int, base: int)
    requires FinishOrdered(InOrder(t), base) && HasEligible(t, v)
    ensures Leftmost(t, v).Some?
    ensures LeastFinish(t, v, Search(t, v, None)) <==> Tied(t, v, None, Leftmost(t, v).value.finish)
  {
    LeftmostIsLeast(t, v, base);
    LeftmostMember(t, v);
    SearchFinds(t, v, None);
    var a, b := Search(t, v, None).value, Leftmost(t, v).value;
    TiedSearch(t, v, None, b.finish);
    if LeastFinish(t, v, Search(t, v, None)) {
      var i := IndexOf(t, a);
      var j := IndexOf(t, b);
      GtIsOrder(base, a.finish, b.finish);
      assert !Gt(a.finish, b.finish) && !Gt(b.finish, a.finish);
    }
  }

  /** Without equal finish times the path must be straight. */
  lemma SearchFinishesFirstNoTies<T>(t: Tree<T>, v: int, base: int)
    requires FinishOrdered(InOrder(t), base) && NoTies(InOrder(t)) && HasEligible(t, v)
    ensures LeastFinish(t, v, Search(t, v, None)) <==> Straight(t, v, false)
  {
    LeftmostIsLeast(t, v, base);
    LeftmostMember(t, v);
    SearchFinds(t, v, None);
    SearchFinishesFirstIff(t, v, base);
    TiedSearch(t, v, None, Leftmost(t, v).value.finish);
    NoTiesDistinct(t);
    SearchIsLeftmostIff(t, v, None);
    if LeastFinish(t, v, Search(t, v, None)) {
      SameFinishSame(t, Search(t, v, None).value, Leftmost(t, v).value);
    }
  }

  /** Without that agreement the search can miss: the root is eligible, so the entity in the right part
   * of its left subtree is passed over although it finishes earlier. The shape is that of a red-black
   * tree with one red node, the entity passed over. */
  lemma SearchCanMiss()
    ensures var t := Fork(Fork(Leaf, Entity(9, 10, 1), Fork(Leaf, Entity(1, 20, 2), Leaf)),
                          Entity(2, 30, 3),
                          Fork(Leaf, Entity(3, 40, 4), Leaf));
            && FinishOrdered(InOrder(t), 0) && !Straight(t, 5, false)
            && Search(t, 5, None) == Some(Entity(2, 30, 3)) && Leftmost(t, 5) == Some(Entity(1, 20, 2))
            && !LeastFinish(t, 5, Search(t, 5, None))
  {
    var a, b, c, d := Entity(9, 10, 1), Entity(1, 20, 2), Entity(2, 30, 3), Entity(3, 40, 4);
    var low, r := Fork(Leaf, b, Leaf), Fork(Leaf, d, Leaf);
    var l := Fork(Leaf, a, low);
    assert InOrder(low) == [b] && InOrder(r) == [d];
    assert InOrder(l) == [a, b];
    assert InOrder(Fork(l, c, r)) == [a, b, c, d];
    assert HasEligible(low, 5);
    assert HasEligible(l, 5);
    assert Search(l, 5, Some(c)) == Some(c);
    assert b in Entities(low) && b in Entities(l) && b in Entities(Fork(l, c, r));
    assert Eligible(b, 5) && Gt(c.finish, b.finish);
  }

  // ---------- the jump of virtual time ----------

  /** The virtual time at which something is eligible: the current one, or the least start. */
  function VtimeJump<T>(t: Tree<T>, vtime: int): int
    requires t.Fork?
  {
    if Gt(MinStart(t), vtime) then MinStart(t) else vtime
  }

  /** After the jump a non-empty tree always yields an entity, and the time never moves back. */
  lemma JumpYieldsEntity<T>(t: Tree<T>, vtime: int, base: int)
    requires t.Fork? && AllInWindow(t, base) && InWindow(base, vtime)
    ensures var v := VtimeJump(t, vtime); Search(t, v, None).Some? && Eligible(Search(t, v, None).value, v)
    ensures !Gt(vtime, VtimeJump(t, vtime))
    ensures HasEligible(t, vtime) ==> VtimeJump(t, vtime) == vtime
  {
    var v := VtimeJump(t, vtime);
    MinInWindow(t, base);
    MinTellsEligible(t, base, v);
    MinTellsEligible(t, base, vtime);
    SearchFinds(t, v, None);
  }

  /** And no earlier time would do. */
  lemma JumpIsLeast<T>(t: Tree<T>, vtime: int, base: int, v: int)
    requires t.Fork? && AllInWindow(t, base) && InWindow(base, vtime) && InWindow(base, v)
    requires !Gt(vtime, v) && HasEligible(t, v)
    ensures !Gt(VtimeJump(t, vtime), v)
  {
    MinTellsEligible(t, base, v);
  }

  /** The time that is stored after a jump: a new value is taken only if it is the larger number. */
  function StoredTime<T>(t: Tree<T>, vtime: int): int
    requires t.Fork?
  {
    if VtimeJump(t, vtime) > vtime then VtimeJump(t, vtime) else vtime
  }

  /** The stored time makes an entity eligible exactly if the jump does not go past the wrap of 64 bits. */
  lemma StoredTimeServesIff<T>(t: Tree<T>, vtime: int, base: int)
    requires t.Fork? && AllInWindow(t, base) && InWindow(base, vtime)
    ensures HasEligible(t, StoredTime(t, vtime)) <==> !(Gt(MinStart(t), vtime) && MinStart(t) < vtime)
  {
    MinInWindow(t, base);
    MinTellsEligible(t, base, StoredTime(t, vtime));
  }

  /** At the last instant before the wrap, an entity that starts five units later is served, but the time
   * stays behind it. */
  lemma WrapHoldsTimeBack()
    ensures var t := Fork(Leaf, Entity(4, 9, 1), Leaf);
            && VtimeJump(t, RANGE - 1) == 4 && HasEligible(t, 4)
            && StoredTime(t, RANGE - 1) == RANGE - 1 && !HasEligible(t, RANGE - 1)
  {
  }

  // ---------- insertion ----------

  /** Insert after all entities that finish no later. */
  function Insert<T>(t: Tree<T>, e: Entity<T>): Tree<T> {
    match t
    case Leaf => Fork(Leaf, e, Leaf)
    case Fork(l, x, r) => if Gt(x.finish, e.finish) then Fork(Insert(l, e), x, r) else Fork(l, x, Insert(r, e))
  }

  /** Where it lands in the sequence. */
  function InsertIndex<T>(t: Tree<T>, e: Entity<T>): nat {
    match t
    case Leaf => 0
    case Fork(l, x, r) => if Gt(x.finish, e.finish) then InsertIndex(l, e) else |InOrder(l)| + 1 + InsertIndex(r, e)
  }

  lemma {:induction false} InsertLands<T>(t: Tree<T>, e: Entity<T>)
    ensures InsertIndex(t, e) <= |InOrder(t)|
    ensures InOrder(Insert(t, e)) == InOrder(t)[..InsertIndex(t, e)] + [e] + InOrder(t)[InsertIndex(t, e)..]
  {
    hide Gt;
    match t
    case Leaf =>
    case Fork(l, x, r) =>
      var s, k := InOrder(t), InsertIndex(t, e);
      if Gt(x.finish, e.finish) {
        InsertLands(l, e);
        LandsLeft(InOrder(l), k, e, [x] + InOrder(r));
        Seqs.Assoc(InOrder(l), [x], InOrder(r));
        Seqs.Assoc(InOrder(Insert(l, e)), [x], InOrder(r));
      } else {
        InsertLands(r, e);
        LandsRight(InOrder(l) + [x], InOrder(r), InsertIndex(r, e), e);
      }
  }

  lemma LandsLeft<T>(a: seq<T>, k: nat, e: T, b: seq<T>)
    requires k <= |a|
    ensures (a[..k] + [e] + a[k..]) + b == (a + b)[..k] + [e] + (a + b)[k..]
  {
  }

  lemma LandsRight<T>(a: seq<T>, b: seq<T>, j: nat, e: T)
    requires j <= |b|
    ensures a + (b[..j] + [e] + b[j..]) == (a + b)[..|a| + j] + [e] + (a + b)[|a| + j..]
  {
  }

  lemma OrderTransfers(base: int, a: int, x: int, e: int)
    requires InWindow(base, a) && InWindow(base, x) && InWindow(base, e)
    ensures !Gt(a, x) && !Gt(x, e) ==> !Gt(a, e)
    ensures !Gt(x, a) && Gt(x, e) ==> Gt(a, e)
  {
    GtIsOrder(base, a, x);
    GtIsOrder(base, x, a);
    GtIsOrder(base, x, e);
    GtIsOrder(base, a, e);
  }

  lemma FinishSlice<T>(s: seq<Entity<T>>, base: int, a: nat, b: nat)
    requires FinishOrdered(s, base) && a <= b <= |s|
    ensures FinishOrdered(s[a..b], base)
  {
    hide Gt, InWindow;
    var p := s[a..b];
    forall i | 0 <= i < |p| ensures InWindow(base, p[i].finish) {
      assert p[i] == s[a + i];
    }
    forall i, j | 0 <= i < j < |p| ensures !Gt(p[i].finish, p[j].finish) {
      assert p[i] == s[a + i] && p[j] == s[a + j];
    }
  }

  /** Insertion puts the entity after all that finish no later and before all that finish later, so
   * equal finish times keep their order of arrival. */
  lemma {:induction false} InsertKeepsOrder<T>(t: Tree<T>, e: Entity<T>, base: int, i: nat)
    requires FinishOrdered(InOrder(t), base) && InWindow(base, e.finish) && i < |InOrder(t)|
    ensures Gt(InOrder(t)[i].finish, e.finish) <==> InsertIndex(t, e) <= i
  {
    hide Gt, InWindow;
    var Fork(l, x, r) := t;
    var s, n := InOrder(t), |InOrder(l)|;
    assert s[n] == x;
    OrderTransfers(base, s[i].finish, x.finish, e.finish);
    InsertLands(l, e);
    if i < n {
      FinishSlice(s, base, 0, n);
      assert s[0..n] == InOrder(l);
      assert s[i] == InOrder(l)[i];
      InsertKeepsOrder(l, e, base, i);
    } else if n < i {
      FinishSlice(s, base, n + 1, |s|);
      assert s[n + 1..|s|] == InOrder(r);
      assert s[i] == InOrder(r)[i - n - 1];
      InsertKeepsOrder(r, e, base, i - n - 1);
    }
  }

  /** The tree stays ordered by finish time. */
  lemma InsertSorted<T>(t: Tree<T>, e: Entity<T>, base: int)
    requires FinishOrdered(InOrder(t), base) && InWindow(base, e.finish)
    ensures FinishOrdered(InOrder(Insert(t, e)), base)
  {
    InsertLands(t, e);
    forall i | 0 <= i < |InOrder(t)| ensures Gt(InOrder(t)[i].finish, e.finish) <==> InsertIndex(t, e) <= i {
      InsertKeepsOrder(t, e, base, i);
    }
    hide Insert, InsertIndex, InOrder;
    SortedInsertion(InOrder(t), InsertIndex(t, e), e, base);
  }

  lemma SortedInsertion<T>(s: seq<Entity<T>>, k: nat, e: Entity<T>, base: int)
    requires FinishOrdered(s, base) && InWindow(base, e.finish) && k <= |s|
    requires forall i | 0 <= i < |s| :: Gt(s[i].finish, e.finish) <==> k <= i
    ensures FinishOrdered(s[..k] + [e] + s[k..], base)
  {
    var r := s[..k] + [e] + s[k..];
    forall i | 0 <= i < |s| && Gt(s[i].finish, e.finish) ensures !Gt(e.finish, s[i].finish) {
      GtIsOrder(base, s[i].finish, e.finish);
      GtIsOrder(base, e.finish, s[i].finish);
    }
    hide Gt, InWindow;
    forall i | 0 <= i < |r| ensures InWindow(base, r[i].finish) {
      assert r[i] == if i < k then s[i] else if i == k then e else s[i - 1];
    }
    forall i, j | 0 <= i < j < |r| ensures !Gt(r[i].finish, r[j].finish) {
      assert r[i] == if i < k then s[i] else if i == k then e else s[i - 1];
      assert r[j] == if j < k then s[j] else if j == k then e else s[j - 1];
    }
  }
}
