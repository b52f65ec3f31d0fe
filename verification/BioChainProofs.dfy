/** Chained completion over whole runs: every bio ends exactly once, after its children, and errors
 * reach the root. */
module BioChainProofs {
  import opened Options
  import opened BioChain

  // ---------- counting unfinished children ----------

  function Child(bio: Bio, p: nat): nat {
    if bio.parent == Some(p) && !bio.ended then 1 else 0
  }

  /** Unfinished bios among the first `n` that complete into `p`. */
  function Kids(bios: seq<Bio>, p: nat, n: nat): nat
    requires n <= |bios|
  {
    if n == 0 then 0 else Child(bios[n - 1], p) + Kids(bios, p, n - 1)
  }

  lemma {:induction false} KidsUpdate(bios: seq<Bio>, p: nat, n: nat, i: nat, x: Bio)
    requires n <= |bios| && i < |bios|
    ensures Kids(bios[i := x], p, n) + (if i < n then Child(bios[i], p) else 0) ==
            Kids(bios, p, n) + (if i < n then Child(x, p) else 0)
  {
    if n > 0 {
      KidsUpdate(bios, p, n - 1, i, x);
    }
  }

  lemma {:induction false} KidsZero(bios: seq<Bio>, p: nat, n: nat, c: nat)
    requires c < n <= |bios|
    ensures Child(bios[c], p) <= Kids(bios, p, n)
  {
    if c < n - 1 {
      KidsZero(bios, p, n - 1, c);
    }
  }

  lemma {:induction false} KidsAppend(bios: seq<Bio>, x: Bio, p: nat, n: nat)
    requires n <= |bios|
    ensures Kids(bios + [x], p, n) == Kids(bios, p, n)
  {
    if n > 0 {
      KidsAppend(bios, x, p, n - 1);
    }
  }

  lemma {:induction false} KidsWitness(bios: seq<Bio>, p: nat, n: nat) returns (c: nat)
    requires n <= |bios| && 0 < Kids(bios, p, n)
    ensures c < n && Child(bios[c], p) == 1
  {
    if Child(bios[n - 1], p) == 1 {
      c := n - 1;
    } else {
      c := KidsWitness(bios, p, n - 1);
    }
  }

  function AllKids(s: State, p: nat): nat {
    Kids(s.bios, p, |s.bios|)
  }

  // ---------- the invariant ----------

  ghost predicate Linked(s: State) {
    forall b | 0 <= b < |s.bios| :: s.bios[b].parent.Some? ==> s.bios[b].parent.value < |s.bios|
  }

  /** The count of a bio is its own pending completion plus its unfinished children, plus `extra`
   * completions on their way to it. */
  ghost predicate Counted(s: State, b: nat, extra: nat)
    requires s.Has(b)
  {
    var bio := s.bios[b];
    if bio.ended then !bio.pending && AllKids(s, b) == 0 && extra == 0
    else
      && bio.remaining == extra + (if bio.pending then 1 else 0) + AllKids(s, b)
      && 0 < bio.remaining
      && (!bio.chained ==> bio.remaining == 1 && AllKids(s, b) == 0)
  }

  function Extra(tok: Option<nat>, b: nat): nat {
    if tok == Some(b) then 1 else 0
  }

  ghost predicate AllCounted(s: State, tok: Option<nat>) {
    forall b | 0 <= b < |s.bios| :: Counted(s, b, Extra(tok, b))
  }

  /** `b` is an ended child of `p` with this status. */
  predicate Told(s: State, c: nat, p: nat) {
    s.Has(c) && s.bios[c].parent == Some(p) && s.bios[c].ended
  }

  /** `c` is the first child of `p` to end with an error. */
  ghost predicate FirstError(s: State, c: nat, p: nat) {
    && Told(s, c, p) && s.bios[c].status != 0
    && forall d: nat | Told(s, d, p) && s.bios[d].status != 0 :: s.bios[c].endedAt <= s.bios[d].endedAt
  }

  /** The status is clean exactly when nothing was reported to the bio. Otherwise it is the error of its own
   * completion, or if that brought none, that of the first child to end with an error. */
  ghost predicate StatusTrue(s: State, b: nat)
    requires s.Has(b)
  {
    var bio := s.bios[b];
    && (bio.pending ==> bio.reported == 0)
    && (bio.status == 0 ==> bio.reported == 0 && forall c: nat | Told(s, c, b) :: s.bios[c].status == 0)
    && (bio.reported != 0 ==> bio.status == bio.reported)
    && (bio.status != 0 && bio.reported == 0 ==>
          exists c: nat :: FirstError(s, c, b) && s.bios[c].status == bio.status)
  }

  ghost predicate AllTrue(s: State) {
    forall b | 0 <= b < |s.bios| :: StatusTrue(s, b)
  }

  /** The order lists every ended bio once, children before parents. */
  ghost predicate Ordered(s: State) {
    && (forall i | 0 <= i < |s.order| ::
          s.Has(s.order[i]) && s.bios[s.order[i]].ended && s.bios[s.order[i]].endedAt == i)
    && (forall b | 0 <= b < |s.bios| && s.bios[b].ended ::
          s.bios[b].endedAt < |s.order| && s.order[s.bios[b].endedAt] == b)
    && (forall c: nat, b: nat | Told(s, c, b) && s.Has(b) && s.bios[b].ended :: s.bios[c].endedAt < s.bios[b].endedAt)
  }

  /** Holds between steps (`tok` is None), and while a completion is on its way to a bio. */
  ghost predicate Inv(s: State, tok: Option<nat>) {
    && !s.bug && Linked(s) && AllCounted(s, tok) && AllTrue(s) && Ordered(s)
    && (tok.Some? ==> s.Has(tok.value))
  }

  // ---------- one arrival ----------

  /** A completion that is not the last one. */
  lemma ArriveWaits(s: State, b: nat)
    requires Inv(s, Some(b)) && !Arrive(s, b).1
    ensures Inv(Arrive(s, b).0, None)
  {
    assert Counted(s, b, Extra(Some(b), b));
    var t := Arrive(s, b).0;
    var x := s.bios[b].(remaining := s.bios[b].remaining - 1);
    assert t.bios == s.bios[b := x];
    forall p | 0 <= p < |t.bios| ensures Counted(t, p, 0) && StatusTrue(t, p) {
      KidsUpdate(s.bios, p, |s.bios|, b, x);
      assert Counted(s, p, Extra(Some(b), p));
      assert StatusTrue(s, p);
      SameTold(s, t, p);
    }
    SameOrder(s, t);
  }

  /** Nothing about endings, parents and statuses differs. */
  ghost predicate SameOutcome(s: State, t: State) {
    && |t.bios| == |s.bios| && t.order == s.order
    && forall c | 0 <= c < |s.bios| ::
         && t.bios[c].parent == s.bios[c].parent && t.bios[c].ended == s.bios[c].ended
         && t.bios[c].endedAt == s.bios[c].endedAt && t.bios[c].status == s.bios[c].status
         && t.bios[c].reported == s.bios[c].reported && t.bios[c].pending == s.bios[c].pending
  }

  lemma SameTold(s: State, t: State, p: nat)
    requires SameOutcome(s, t) && s.Has(p) && StatusTrue(s, p)
    ensures StatusTrue(t, p)
  {
    assert forall c: nat :: Told(t, c, p) <==> Told(s, c, p);
    FirstErrorKept(s, t, p);
  }

  /** If no child of `p` differs, the first error among them is the same. */
  lemma FirstErrorKept(s: State, t: State, p: nat)
    requires forall c: nat :: Told(t, c, p) <==> Told(s, c, p)
    requires forall c: nat | Told(s, c, p) ::
               s.Has(c) && t.Has(c) && t.bios[c].status == s.bios[c].status && t.bios[c].endedAt == s.bios[c].endedAt
    ensures forall c: nat :: FirstError(t, c, p) <==> FirstError(s, c, p)
  {
  }

  lemma SameOrder(s: State, t: State)
    requires SameOutcome(s, t) && Ordered(s)
    ensures Ordered(t)
  {
    assert forall c: nat, p: nat :: Told(t, c, p) <==> Told(s, c, p);
  }

  /** What is known about a bio whose last completion arrives. */
  lemma LastArrival(s: State, b: nat)
    requires Inv(s, Some(b)) && Arrive(s, b).1
    ensures var bio, x := s.bios[b], Arrive(s, b).0.bios[b];
            && !bio.ended && !bio.pending && AllKids(s, b) == 0 && bio.parent != Some(b)
            && x == bio.(remaining := x.remaining, chained := false, ended := true, endedAt := |s.order|)
            && Arrive(s, b).0 == State(s.bios[b := x], s.order + [b], false)
  {
    assert Counted(s, b, Extra(Some(b), b));
    if s.bios[b].parent == Some(b) {
      KidsZero(s.bios, b, |s.bios|, b);
    }
  }

  /** The parent of an unended bio is unended. */
  lemma ParentUnended(s: State, tok: Option<nat>, b: nat, p: nat)
    requires Inv(s, tok) && s.Has(b) && !s.bios[b].ended && s.bios[b].parent == Some(p)
    ensures s.Has(p) && !s.bios[p].ended
  {
    assert Counted(s, p, Extra(tok, p));
    KidsZero(s.bios, p, |s.bios|, b);
  }

  /** The state after `b` ended and told its parent, if it has one. */
  function Passed(s: State, b: nat): State
    requires s.Has(b) && Arrive(s, b).0.Has(b)
    requires s.bios[b].parent.Some? ==> Arrive(s, b).0.Has(s.bios[b].parent.value)
  {
    match s.bios[b].parent
    case None => Arrive(s, b).0
    case Some(p) => PassStatus(Arrive(s, b).0, b, p)
  }

  ghost predicate Passing(s: State, b: nat) {
    && Inv(s, Some(b)) && Arrive(s, b).1
    && (s.bios[b].parent.Some? ==> s.Has(s.bios[b].parent.value))
  }

  lemma PassedCounted(s: State, b: nat)
    requires Passing(s, b)
    ensures AllCounted(Passed(s, b), s.bios[b].parent) && Linked(Passed(s, b))
  {
    LastArrival(s, b);
    var t, up := Arrive(s, b).0, s.bios[b].parent;
    var u := Passed(s, b);
    var x := t.bios[b];
    if up.Some? {
      ParentUnended(s, Some(b), b, up.value);
    }
    forall q: nat | q < |u.bios| ensures Counted(u, q, Extra(up, q)) {
      assert Counted(s, q, Extra(Some(b), q));
      KidsUpdate(s.bios, q, |s.bios|, b, x);
      if up.Some? {
        KidsUpdate(t.bios, q, |t.bios|, up.value, u.bios[up.value]);
        assert u.bios == t.bios[up.value := u.bios[up.value]];
      }
    }
  }

  lemma PassedTrue(s: State, b: nat)
    requires Passing(s, b)
    ensures AllTrue(Passed(s, b))
  {
    LastArrival(s, b);
    var up := s.bios[b].parent;
    var u := Passed(s, b);
    if up.Some? {
      ParentUnended(s, Some(b), b, up.value);
    }
    forall q: nat | q < |u.bios| ensures StatusTrue(u, q) {
      assert StatusTrue(s, q);
      assert forall c: nat :: Told(u, c, q) <==> Told(s, c, q) || (c == b && up == Some(q));
      assert forall c: nat | Told(s, c, q) ::
               u.bios[c].status == s.bios[c].status && u.bios[c].endedAt == s.bios[c].endedAt < |s.order|;
      if up == Some(q) {
        PassedFirst(s, b, q);
      } else {
        FirstErrorKept(s, u, q);
      }
    }
  }

  /** The error of a child that ends is the first one exactly if there was none before. */
  lemma PassedFirst(s: State, b: nat, q: nat)
    requires Passing(s, b) && s.bios[b].parent == Some(q) && s.Has(q) && StatusTrue(s, q)
    requires Passed(s, b).Has(q) && Passed(s, b).Has(b)
    requires var u := Passed(s, b);
             && (forall c: nat :: Told(u, c, q) <==> Told(s, c, q) || c == b)
             && (forall c: nat | Told(s, c, q) :: u.Has(c)
                   && u.bios[c].status == s.bios[c].status && u.bios[c].endedAt == s.bios[c].endedAt < |s.order|)
    ensures StatusTrue(Passed(s, b), q)
  {
    LastArrival(s, b);
    var u := Passed(s, b);
    assert Told(u, b, q) && u.bios[b].status == s.bios[b].status && u.bios[b].endedAt == |s.order|;
    var bio := s.bios[q];
    if bio.status == 0 {
      assert s.bios[b].status != 0 ==> FirstError(u, b, q);
    } else if bio.reported == 0 {
      var c: nat :| FirstError(s, c, q) && s.bios[c].status == bio.status;
      assert FirstError(u, c, q);
    }
  }

  lemma PassedOrdered(s: State, b: nat)
    requires Passing(s, b)
    ensures Ordered(Passed(s, b))
  {
    LastArrival(s, b);
    var up := s.bios[b].parent;
    var u := Passed(s, b);
    if up.Some? {
      ParentUnended(s, Some(b), b, up.value);
    }
    assert forall c | 0 <= c < |u.bios| && c != b ::
             u.bios[c].ended == s.bios[c].ended && u.bios[c].endedAt == s.bios[c].endedAt;
    forall c: nat, q: nat | Told(u, c, q) && u.Has(q) && u.bios[q].ended ensures u.bios[c].endedAt < u.bios[q].endedAt {
      assert c != b;
      assert Told(s, c, q);
    }
  }

  /** The last completion of a bio ends it and sends one completion on to its parent. */
  lemma ArriveEnds(s: State, b: nat)
    requires Passing(s, b)
    ensures Inv(Passed(s, b), s.bios[b].parent)
  {
    LastArrival(s, b);
    PassedCounted(s, b);
    PassedTrue(s, b);
    PassedOrdered(s, b);
  }

  // ---------- steps ----------

  lemma {:induction false} EndIoKeeps(s: State, b: nat)
    requires Inv(s, Some(b))
    ensures Inv(EndIo(s, b), None)
    decreases Unended(s.bios)
  {
    if !Arrive(s, b).1 {
      ArriveWaits(s, b);
    } else {
      assert Passing(s, b);
      ArriveEnds(s, b);
      var up := s.bios[b].parent;
      if up.Some? {
        ArriveUnended(s, b, up.value);
        EndIoKeeps(Passed(s, b), up.value);
      }
    }
  }

  /** `b`'s own completion has been noted and is about to arrive. */
  function Noted(s: State, b: nat, error: int): State
    requires s.Has(b)
  {
    var bio := s.bios[b];
    s.With(b, bio.(pending := false, reported := error, status := if error != 0 then error else bio.status))
  }

  lemma NotedCounted(s: State, b: nat, error: int)
    requires AllCounted(s, None) && s.Has(b) && s.bios[b].pending
    ensures AllCounted(Noted(s, b, error), Some(b))
  {
    var t := Noted(s, b, error);
    forall q: nat | q < |t.bios| ensures Counted(t, q, Extra(Some(b), q)) {
      assert Counted(s, q, Extra(None, q));
      KidsUpdate(s.bios, q, |s.bios|, b, t.bios[b]);
    }
  }

  lemma NotedTrue(s: State, b: nat, error: int)
    requires AllTrue(s) && s.Has(b) && s.bios[b].pending && !s.bios[b].ended
    ensures AllTrue(Noted(s, b, error))
  {
    var t := Noted(s, b, error);
    forall q: nat | q < |t.bios| ensures StatusTrue(t, q) {
      assert StatusTrue(s, q);
      assert forall c: nat :: Told(t, c, q) <==> Told(s, c, q);
      assert forall c: nat | Told(s, c, q) :: t.bios[c].status == s.bios[c].status;
      FirstErrorKept(s, t, q);
    }
  }

  lemma CompleteKeeps(s: State, b: nat, error: int)
    requires Inv(s, None) && s.Has(b) && s.bios[b].pending
    ensures Inv(Complete(s, b, error), None)
  {
    assert Counted(s, b, Extra(None, b));
    NotedCounted(s, b, error);
    NotedTrue(s, b, error);
    var t := Noted(s, b, error);
    assert forall c: nat, q: nat :: Told(t, c, q) <==> Told(s, c, q);
    EndIoKeeps(t, b);
  }

  predicate CanChain(s: State, c: nat, p: nat) {
    && s.Has(c) && s.Has(p) && c != p
    && s.bios[c].parent == None && !s.bios[c].ended && !s.bios[p].ended
  }

  lemma ChainCounted(s: State, c: nat, p: nat)
    requires AllCounted(s, None) && CanChain(s, c, p)
    ensures AllCounted(Chain(s, c, p), None)
  {
    var t := Chain(s, c, p);
    var xc := s.bios[c].(parent := Some(p));
    assert t.bios == s.bios[c := xc][p := t.bios[p]];
    forall q: nat | q < |t.bios| ensures Counted(t, q, Extra(None, q)) {
      assert Counted(s, q, Extra(None, q));
      KidsUpdate(s.bios, q, |s.bios|, c, xc);
      KidsUpdate(s.bios[c := xc], q, |s.bios|, p, t.bios[p]);
    }
  }

  lemma ChainKeeps(s: State, c: nat, p: nat)
    requires Inv(s, None) && CanChain(s, c, p)
    ensures Inv(Chain(s, c, p), None)
  {
    ChainCounted(s, c, p);
    var t := Chain(s, c, p);
    assert forall d: nat, q: nat :: Told(t, d, q) <==> Told(s, d, q);
    forall q: nat | q < |t.bios| ensures StatusTrue(t, q) {
      assert StatusTrue(s, q);
      FirstErrorKept(s, t, q);
    }
  }

  lemma AllocKeeps(s: State)
    requires Inv(s, None)
    ensures Inv(Alloc(s), None)
  {
    var t := Alloc(s);
    var n := |s.bios|;
    forall q: nat | q < |t.bios| ensures Counted(t, q, Extra(None, q)) && StatusTrue(t, q) {
      KidsAppend(s.bios, FRESH, q, n);
      if q < n {
        assert Counted(s, q, Extra(None, q)) && StatusTrue(s, q);
      } else {
        NoKids(s, n);
      }
      assert forall d: nat :: Told(t, d, q) <==> Told(s, d, q);
      FirstErrorKept(s, t, q);
    }
    assert forall d: nat, q: nat :: Told(t, d, q) <==> Told(s, d, q);
  }

  lemma NoKids(s: State, p: nat)
    requires Linked(s) && |s.bios| <= p
    ensures AllKids(s, p) == 0
  {
    if AllKids(s, p) > 0 {
      var c := KidsWitness(s.bios, p, |s.bios|);
    }
  }

  // ---------- whole runs ----------

  datatype Event = New | Link(c: nat, p: nat) | Done(b: nat, error: int)

  predicate Enabled(s: State, e: Event) {
    match e
    case New => true
    case Link(c, p) => CanChain(s, c, p)
    case Done(b, _) => s.Has(b) && s.bios[b].pending
  }

  function Apply(s: State, e: Event): State
    requires Enabled(s, e)
  {
    match e
    case New => Alloc(s)
    case Link(c, p) => Chain(s, c, p)
    case Done(b, error) => Complete(s, b, error)
  }

  function Run(s: State, es: seq<Event>): Option<State>
    decreases |es|
  {
    if es == [] then Some(s)
    else if Enabled(s, es[0]) then Run(Apply(s, es[0]), es[1..])
    else None
  }

  lemma {:induction false} RunKeeps(s: State, es: seq<Event>)
    requires Inv(s, None) && Run(s, es).Some?
    ensures Inv(Run(s, es).value, None)
    decreases |es|
  {
    if es != [] {
      hide Inv;
      match es[0] {
        case New => AllocKeeps(s);
        case Link(c, p) => ChainKeeps(s, c, p);
        case Done(b, error) => CompleteKeeps(s, b, error);
      }
      RunKeeps(Apply(s, es[0]), es[1..]);
    }
  }

  /** States that some order of allocations, chainings and completions can reach. */
  ghost predicate Reachable(s: State) {
    exists es :: Run(EMPTY, es) == Some(s)
  }

  lemma ReachableHolds(s: State)
    requires Reachable(s)
    ensures Inv(s, None)
  {
    var es :| Run(EMPTY, es) == Some(s);
    assert Inv(EMPTY, None);
    RunKeeps(EMPTY, es);
  }

  /** No bio ends twice and no count runs out. */
  lemma EndsAtMostOnce(s: State)
    requires Reachable(s)
    ensures !s.bug
    ensures forall i, j | 0 <= i < j < |s.order| :: s.order[i] != s.order[j]
    ensures forall b: nat | s.Has(b) :: s.bios[b].ended <==> b in s.order
  {
    ReachableHolds(s);
    forall b: nat | s.Has(b) && s.bios[b].ended ensures b in s.order {
      assert s.order[s.bios[b].endedAt] == b;
    }
  }

  /** The count of an unended bio: its own pending completion and its unfinished children. */
  lemma CountIsExact(s: State, b: nat)
    requires Reachable(s) && s.Has(b) && !s.bios[b].ended
    ensures s.bios[b].remaining == (if s.bios[b].pending then 1 else 0) + AllKids(s, b)
  {
    ReachableHolds(s);
    assert Counted(s, b, Extra(None, b));
  }

  /** A bio ends only after its own completion and after every bio chained to it has ended. */
  lemma EndsAfterChildren(s: State, b: nat, c: nat)
    requires Reachable(s) && s.Has(b) && s.bios[b].ended
    ensures !s.bios[b].pending
    ensures s.Has(c) && s.bios[c].parent == Some(b) ==> s.bios[c].ended && s.bios[c].endedAt < s.bios[b].endedAt
  {
    ReachableHolds(s);
    assert Counted(s, b, Extra(None, b));
    if s.Has(c) && s.bios[c].parent == Some(b) {
      KidsZero(s.bios, b, |s.bios|, c);
      assert Told(s, c, b);
    }
  }

  // ---------- errors ----------

  /** `d` completes into `b` over `n` links. */
  ghost predicate Below(s: State, d: nat, b: nat, n: nat)
    decreases n
  {
    s.Has(d) && if n == 0 then d == b else s.bios[d].parent.Some? && Below(s, s.bios[d].parent.value, b, n - 1)
  }

  lemma {:induction false} BelowExtends(s: State, d: nat, c: nat, b: nat, n: nat)
    requires Below(s, d, c, n) && s.Has(c) && s.bios[c].parent == Some(b) && s.Has(b)
    ensures Below(s, d, b, n + 1)
    decreases n
  {
    if n > 0 {
      BelowExtends(s, s.bios[d].parent.value, c, b, n - 1);
    }
  }

  /** Everything below an ended bio has ended, and its errors have reached that bio. */
  lemma {:induction false} ErrorsRise(s: State, d: nat, b: nat, n: nat)
    requires Reachable(s) && s.Has(b) && s.bios[b].ended && Below(s, d, b, n)
    ensures s.bios[d].ended
    ensures s.bios[d].status != 0 ==> s.bios[b].status != 0
    decreases n
  {
    if n > 0 {
      var p := s.bios[d].parent.value;
      ErrorsRise(s, p, b, n - 1);
      EndsAfterChildren(s, p, d);
      ReachableHolds(s);
      assert StatusTrue(s, p) && Told(s, d, p);
    }
  }

  /** An error status of an ended bio was reported somewhere below it. */
  lemma {:induction false} ErrorsHaveSource(s: State, b: nat) returns (d: nat, n: nat)
    requires Reachable(s) && s.Has(b) && s.bios[b].ended && s.bios[b].status != 0
    ensures Below(s, d, b, n) && s.bios[d].reported == s.bios[b].status
    decreases s.bios[b].endedAt
  {
    ReachableHolds(s);
    assert StatusTrue(s, b);
    if s.bios[b].reported == s.bios[b].status {
      d, n := b, 0;
    } else {
      var c: nat :| FirstError(s, c, b) && s.bios[c].status == s.bios[b].status;
      EndsAfterChildren(s, b, c);
      d, n := ErrorsHaveSource(s, c);
      BelowExtends(s, d, c, b, n);
      n := n + 1;
    }
  }

  /** Which error a bio has: its own, and without one that of the first child to end with an error. */
  lemma StatusIsFirstError(s: State, b: nat, c: nat)
    requires Reachable(s) && s.Has(b)
    ensures s.bios[b].reported != 0 ==> s.bios[b].status == s.bios[b].reported
    ensures s.bios[b].reported == 0 && FirstError(s, c, b) ==> s.bios[b].status == s.bios[c].status
  {
    ReachableHolds(s);
    assert StatusTrue(s, b);
    if s.bios[b].reported == 0 && FirstError(s, c, b) {
      var d: nat :| FirstError(s, d, b) && s.bios[d].status == s.bios[b].status;
      assert s.bios[c].endedAt == s.bios[d].endedAt;
      assert s.order[s.bios[c].endedAt] == c && s.order[s.bios[d].endedAt] == d;
    }
  }

  /** Some bio below `b`, or `b` itself, reported an error. */
  ghost predicate ErrorBelow(s: State, b: nat) {
    exists d: nat, n: nat :: Below(s, d, b, n) && s.bios[d].reported != 0
  }

  /** An ended bio has an error status exactly when some bio in its tree reported one. */
  lemma ErrorExactlyWhenReported(s: State, b: nat)
    requires Reachable(s) && s.Has(b) && s.bios[b].ended
    ensures s.bios[b].status != 0 <==> ErrorBelow(s, b)
  {
    if s.bios[b].status != 0 {
      var d, n := ErrorsHaveSource(s, b);
      assert Below(s, d, b, n) && s.bios[d].reported != 0;
    }
    if ErrorBelow(s, b) {
      var d: nat, n: nat :| Below(s, d, b, n) && s.bios[d].reported != 0;
      ReachableHolds(s);
      assert s.Has(d);
      assert StatusTrue(s, d);
      assert s.bios[d].status != 0;
      ErrorsRise(s, d, b, n);
    }
  }

  // ---------- progress ----------

  /** A rank that grows along every link: the chaining has no cycle. */
  ghost predicate Ranked(s: State, rank: seq<nat>) {
    && |rank| == |s.bios|
    && forall c | 0 <= c < |s.bios| && s.bios[c].parent.Some? ::
         s.bios[c].parent.value < |rank| && rank[c] < rank[s.bios[c].parent.value]
  }

  /** Once every completion has been delivered, every bio of an acyclic forest has ended. */
  lemma {:induction false} AllEnd(s: State, rank: seq<nat>, b: nat)
    requires Reachable(s) && Ranked(s, rank) && s.Has(b)
    requires forall c | 0 <= c < |s.bios| :: !s.bios[c].pending
    ensures s.bios[b].ended
    decreases rank[b]
  {
    if !s.bios[b].ended {
      CountIsExact(s, b);
      ReachableHolds(s);
      assert Counted(s, b, Extra(None, b));
      var c := KidsWitness(s.bios, b, |s.bios|);
      AllEnd(s, rank, c);
    }
  }
}
